/** The kernel heap allocator: malloc_state and the functions that change it. */
module DougLea {
  import opened Words
  import opened Rings
  import opened Tries
  import opened TrieMemory
  import opened TrieUnlink
  import opened BinIndex
  import opened BinMaps
  import opened Bins
  import opened BinUnlink
  import opened Tiling
  import opened HeapState
  import opened Coalesce
  import opened Confluence
  import opened Carving
  import opened TreeSearch
  import opened Segment
  import opened Resizing
  import opened Bytes
  import opened PointerArrays
  import opened Alignment
  import opened HeapMemory

  /** What a request to sys_alloc for system memory comes to. */
  datatype Supply = Halt | None | Space(tbase: int, tsize: int)

  /** What malloc comes to: the kernel halts in HeapMemory_expand, or a pointer, which may be null. */
  datatype Reply = Halted | Mem(ptr: int)

  class MallocState {
    /** The memory the allocator works in, and the scalar fields of malloc_state. */
    var mem: Mem
    var smallmap: BinMap
    var treemap: BinMap
    var dvsize: int
    var topsize: int
    var dv: int
    var top: int
    var trimCheck: int
    var footprint: int
    /** The size of the one segment, and whether USE_NONCONTIGUOUS_BIT is still clear. */
    var segSize: int
    var contiguous: bool
    const heap: KernelHeap

    /** What the bins hold: ring contents per small bin, one trie per treebin, all binned sizes. */
    ghost var small: seq<seq<int>>
    ghost var trees: seq<Tree>
    ghost var binned: Sizes
    /** The tiling of the segment below top. */
    ghost var cs: Chunks

    ghost predicate BinsValid()
      reads this
      ensures BinsValid() <==> BinsInv(mem, smallmap, small, treemap, trees, binned)
    {
      BinsInv(mem, smallmap, small, treemap, trees, binned)
    }

    /** A zeroed malloc_state, before the first allocation. */
    constructor (kernel: KernelHeap)
      requires kernel.Valid() && kernel.kernelHeapTop == HEAP_BASE
      ensures Valid() && heap == kernel && mem == map[] && cs == map[]
    {
      mem := map[];
      smallmap, treemap := EMPTY, EMPTY;
      dv, dvsize, top, topsize := 0, 0, 0, 0;
      trimCheck, footprint, segSize, contiguous := 0, 0, 0, true;
      heap := kernel;
      small := seq(32, _ => []);
      trees := seq(32, _ => Leaf);
      binned, cs := map[], map[];
      new;
      NothingBinned();
    }

    ghost function H(): (h: Heap)
      reads this
      ensures h == Heap(mem, cs, top, topsize, dv, dvsize, binned)
    {
      Heap(mem, cs, top, topsize, dv, dvsize, binned)
    }

    ghost predicate Ready()
      reads this
      ensures Ready() <==> BinsValid() && HeapInv(H())
    {
      BinsValid() && HeapInv(H())
    }

    // ------------------------------------------------------- operations on small bins

    method InsertSmallChunk(p: int, s: int)
      requires BinsValid() && p !in binned && Blocks(binned[p := s]) && s < 256
      modifies this`mem, this`smallmap, this`small, this`binned
      ensures BinsValid() && binned == old(binned)[p := s]
      ensures small == old(small)[s / 8 := [p] + old(small[s / 8])]
      ensures BinsFrame(old(mem), mem, binned)
    {
      hide BinsInv, Blocks, BinsFrame, Rd;
      InsertSmallInv(mem, smallmap, small, treemap, trees, binned, p, s);
      ghost var m0 := mem;
      var i := s / 8;
      var b := SmallBin(i);
      var f := b;
      if !smallmap[i] {
        smallmap := Mark(smallmap, i);
      } else {
        f := Fd(mem, b);
        MarkMarks(smallmap, i);
        assert smallmap == Mark(smallmap, i);
      }
      mem := mem[b + 8 := p];
      mem := mem[f + 12 := p];
      mem := mem[p + 8 := f];
      mem := mem[p + 12 := b];
      assert mem == LinkBetween(m0, b, p, f);
      small := small[i := [p] + small[i]];
      binned := binned[p := s];
    }

    method UnlinkSmallChunk(p: int, s: int)
      requires BinsValid() && p in binned && binned[p] == s && s < 256
      modifies this`mem, this`smallmap, this`small, this`binned
      ensures BinsValid() && binned == old(binned) - {p}
      ensures small == old(small)[s / 8 := Without(old(small[s / 8]), p)]
      ensures BinsFrame(old(mem), mem, old(binned))
    {
      hide BinsInv, Blocks, BinsFrame, Rd;
      UnlinkSmallInv(mem, smallmap, small, treemap, trees, binned, p);
      ghost var m0 := mem;
      var f := Fd(mem, p);
      var b := Bk(mem, p);
      var i := s / 8;
      if b == f {
        smallmap := Clear(smallmap, i);
      } else {
        mem := mem[f + 12 := b];
        mem := mem[b + 8 := f];
      }
      assert mem == UnlinkSmallMem(m0, p);
      small := small[i := Without(small[i], p)];
      binned := binned - {p};
    }

    /** Unlinks the first chunk of a marked small bin. */
    method UnlinkFirstSmallChunk(b: int, p: int, i: nat)
      requires BinsValid() && i < 32 && smallmap[i] && b == SmallBin(i) && p == Fd(mem, b)
      modifies this`mem, this`smallmap, this`small, this`binned
      ensures p in old(binned) && old(binned)[p] == 8 * i
      ensures BinsValid() && binned == old(binned) - {p}
      ensures old(small[i]) != [] && old(small[i])[0] == p && small == old(small)[i := old(small[i])[1..]]
      ensures BinsFrame(old(mem), mem, old(binned))
    {
      ghost var m, marks, rings := UnlinkFirstPlan(mem, smallmap, small, treemap, trees, binned, i);
      hide *;
      var f := Fd(mem, p);
      if b == f {
        smallmap := Clear(smallmap, i);
      } else {
        mem := mem[f + 12 := b];
        mem := mem[b + 8 := f];
      }
      assert mem == m && smallmap == marks;
      small := rings;
      binned := binned - {p};
    }

    // ------------------------------------------------------- operations on treebins

    method InsertLargeChunk(x: int, s: int)
      requires BinsValid() && x !in binned && Blocks(binned[x := s]) && 256 <= s
      requires SizeOf(Head(mem, x)) == s
      modifies this`mem, this`treemap, this`trees, this`binned
      ensures BinsValid() && binned == old(binned)[x := s]
      ensures var i := TreeIndex(s); trees == old(trees)[i := Insert(old(trees[i]), x, s, BinLo(i), BinWidth(i))]
      ensures BinsFrame(old(mem), mem, binned)
    {
      hide *;
      var i := TreeIndex(s);
      BinsParts(mem, smallmap, small, treemap, trees, binned);
      InsertLargeInv(mem, smallmap, small, treemap, trees, binned, x, s);
      InsertPlanHolds(mem, treemap, trees, binned, x, s, i);
      ghost var t := trees[i];
      InsertIntoTree(x, s, i, t);
      trees := trees[i := Insert(t, x, s, BinLo(i), BinWidth(i))];
      binned := binned[x := s];
    }

    method InsertIntoTree(x: int, s: int, i: nat, ghost t: Tree)
      requires i < NTREEBINS && 0 <= s && InsertPlan(mem, treemap, t, x, s, i)
      modifies this`mem, this`treemap
      ensures mem == InsertLargeMem(old(mem), t, x, s, i) && treemap == Mark(old(treemap), i)
    {
      hide BinLo, BinWidth, FreshMem, Rd, Place, FindSpot, WalkReady, InsertLargeMem, Mark;
      var h := TreeBin(i);
      SetTreeFields(x, i);
      if !treemap[i] {
        treemap := Mark(treemap, i);
        HangAt(h, h, x);
      } else {
        var n, c, same, turns := FindInsertion(s, i, t);
        if same { ChainBehind(n, x); } else { HangAt(c, n, x); }
      }
    }

    /** The chunk knows its bin and has no children. */
    method SetTreeFields(x: int, i: int)
      modifies this`mem
      ensures mem == FreshMem(old(mem), x, i)
    {
      mem := mem[x + 28 := i];
      mem := mem[x + 16 := 0];
      mem := mem[x + 20 := 0];
    }

    /** The chunk hangs at a child word, or at a root, as the only one of its size. */
    method HangAt(c: int, t: int, x: int)
      modifies this`mem
      ensures mem == Place(old(mem), Slot(c, t), x)
    {
      mem := mem[c := x];
      mem := mem[x + 24 := t];
      mem := mem[x + 8 := x];
      mem := mem[x + 12 := x];
    }

    /** The chunk comes first in the ring of the tree member of its size. */
    method ChainBehind(t: int, x: int)
      modifies this`mem
      ensures mem == Place(old(mem), Behind(t), x)
    {
      var f := Fd(mem, t);
      mem := mem[t + 8 := x];
      mem := mem[f + 12 := x];
      mem := mem[x + 8 := f];
      mem := mem[x + 12 := t];
      mem := mem[x + 24 := 0];
    }

    /** The walk of insert_large_chunk down a tree that is not empty: it ends at a node t of size
        s, or at an empty child word c of a node t. */
    method FindInsertion(s: int, i: nat, ghost t0: Tree)
      returns (t: int, c: int, same: bool, ghost turns: nat)
      requires 0 <= s && i < NTREEBINS && WalkReady(mem, t0, TreeBin(i), i, s, BinLo(i), BinWidth(i))
      requires Rd(mem, TreeBin(i)) == t0.addr
      ensures FindSpot(t0, s, BinLo(i), BinWidth(i)) == if same then Behind(t) else Slot(c, t)
      ensures turns <= 30 - LeftShift(i)
    {
      WalkDepth(mem, t0, TreeBin(i), i, s);
      hide *;
      turns := 0;
      ghost var lo, w, u := BinLo(i), BinWidth(i), Pow2(LeftShift(i));
      WalkStart(mem, t0, i, s);
      ghost var cur, parent := t0, TreeBin(i);
      ghost var spot := FindSpot(cur, s, lo, w);
      t := Rd(mem, TreeBin(i));
      var k := SizeBits(s, i);
      while true
        invariant cur.Node? && WalkReady(mem, cur, parent, i, s, lo, w)
        invariant t == cur.addr && spot == FindSpot(cur, s, lo, w) && Scaled(k, s, lo, w, u)
        invariant turns + Height(cur) <= Height(t0)
        decreases cur
      {
        HeightBelow(cur);
        turns := turns + 1;
        ghost var c0, half, lo', w', u' := WalkStep(mem, cur, parent, i, s, lo, w, k, u);
        if SizeOf(Head(mem, t)) != s {
          c := t + 16 + 4 * (k / 0x8000_0000);
          k := k * 2 % 0x1_0000_0000;
          if Rd(mem, c) != 0 {
            parent := t;
            t := Rd(mem, c);
            cur, lo, w, u := half, lo', w', u';
          } else {
            same := false;
            return;
          }
        } else {
          c, same := 0, true;
          return;
        }
      }
    }

    method UnlinkLargeChunk(x: int)
      requires BinsValid() && x in binned && 256 <= binned[x]
      modifies this`mem, this`treemap, this`trees, this`binned
      ensures BinsValid() && binned == old(binned) - {x}
      ensures var i := TreeIndex(old(binned)[x]);
              trees == old(trees)[i := Remove(old(trees[i]), x, old(binned)[x], BinLo(i), BinWidth(i))]
      ensures BinsFrame(old(mem), mem, old(binned))
    {
      hide *;
      ghost var s := binned[x];
      ghost var i := TreeIndex(s);
      BinsParts(mem, smallmap, small, treemap, trees, binned);
      UnlinkLargeInv(mem, smallmap, small, treemap, trees, binned, x);
      UnlinkPlan(mem, treemap, trees, binned, x, s, i);
      ghost var t := trees[i];
      UnlinkFromTree(x, t, s, i);
      trees := trees[i := Remove(t, x, s, BinLo(i), BinWidth(i))];
      binned := binned - {x};
    }

    method UnlinkFromTree(x: int, ghost t: Tree, ghost s: int, ghost i: nat)
      requires i < NTREEBINS
      requires ChainedPlan(mem, t, x, s, i) || MemberPlan(mem, t, x, s, i)
      modifies this`mem, this`treemap
      ensures mem == UnlinkLargeMem(old(mem), t, x, s, i)
      ensures treemap == if Remove(t, x, s, BinLo(i), BinWidth(i)).Leaf? then Clear(old(treemap), i) else old(treemap)
    {
      ghost var sub, up := SubAt(t, s, BinLo(i), BinWidth(i)), ParentAt(t, TreeBin(i), s, BinLo(i), BinWidth(i));
      ghost var m0 := mem;
      hide BinLo, BinWidth, SubAt, ParentAt, Remove, UnlinkLargeMem, Rep, RemoveAt, DetachMem, DetachFacts, Unlinked,
        Clear, Join, Rd, LinkWord;
      var xp := Parent(mem, x);
      var r := Detach(x, sub, up, i);
      if xp != 0 {
        Replace(x, r, xp, i, RemoveAt(sub, x));
      }
    }

    /** The first half of unlink_large_chunk: choose the replacement R and cut it loose. */
    method Detach(x: int, ghost t: Tree, ghost parent: int, ghost i: int) returns (r: int)
      requires t.Node? && Rep(mem, t, parent, i)
      requires if x == t.addr then DetachFacts(mem, t) else Bk(mem, x) != x
      modifies this`mem
      ensures x != t.addr ==> mem == Join(old(mem), Fd(old(mem), x), Bk(old(mem), x))
      ensures x == t.addr ==> mem == DetachMem(old(mem), t) && r == Root(RemoveAt(t, x))
    {
      if Bk(mem, x) != x {
        var f := Fd(mem, x);
        r := Bk(mem, x);
        mem := mem[f + 12 := r];
        mem := mem[r + 8 := f];
      } else {
        var rp;
        r, rp := FindLeaf(x, t, parent, i);
        if r != 0 {
          mem := mem[rp := 0];
        }
      }
    }

    /** The second half: R takes over the place of X in the tree. */
    method Replace(x: int, r: int, xp: int, ghost i: nat, ghost n: Tree)
      requires i < NTREEBINS && Index(mem, x) == i
      requires r == Root(n) && (n.Node? ==> r != 0)
      modifies this`mem, this`treemap
      ensures mem == Unlinked(old(mem), LinkWord(old(mem), x, xp, i), n, x, xp)
      ensures treemap == if Rd(old(mem), TreeBin(i)) == x && n.Leaf? then Clear(old(treemap), i) else old(treemap)
    {
      var h := TreeBin(Index(mem, x));
      if Rd(mem, h) == x {
        var idx := Index(mem, x);
        mem := mem[h := r];
        if r == 0 { treemap := Clear(treemap, idx); }
      } else if Child0(mem, xp) == x {
        mem := mem[xp + 16 := r];
      } else {
        mem := mem[xp + 20 := r];
      }
      if r != 0 {
        TakeOver(x, r, xp);
      }
    }

    /** The replacement takes the place of the unlinked node, between its parent and its children. */
    method TakeOver(x: int, r: int, xp: int)
      modifies this`mem
      ensures mem == Adopt(old(mem), x, r, xp)
    {
      mem := mem[r + 24 := xp];
      var c0 := Child0(mem, x);
      if c0 != 0 {
        mem := mem[r + 16 := c0];
        mem := mem[c0 + 24 := r];
      }
      var c1 := Child1(mem, x);
      if c1 != 0 {
        mem := mem[r + 20 := c1];
        mem := mem[c1 + 24 := r];
      }
    }

    /** The first half of unlink_large_chunk for a tree member alone of its size: the word RP and
        the leaf R it leads to, or null if x has no child. */
    method FindLeaf(x: int, ghost t: Tree, ghost parent: int, ghost i: int) returns (r: int, rp: int)
      requires t.Node? && Rep(mem, t, parent, i) && t.addr == x
      ensures IsLeafNode(t) ==> r == 0
      ensures !IsLeafNode(t) ==> r != 0 && r == Rightmost(t).addr && rp == LeafSlot(t)
    {
      LeafStep(mem, t, parent, i);
      hide Rep, Rightmost, RpSlot, Rd;
      rp := x + 20;
      r := Rd(mem, rp);
      if r == 0 {
        rp := x + 16;
        r := Rd(mem, rp);
      }
      if r != 0 {
        ghost var cur, up := if t.right.Node? then t.right else t.left, x;
        var more := true;
        while more
          invariant cur.Node? && Rep(mem, cur, up, i) && r == cur.addr && r != 0
          invariant Rightmost(cur).addr == Rightmost(t).addr && RpSlot(cur, rp) == LeafSlot(t)
          invariant !more ==> IsLeafNode(cur)
          decreases cur, more
        {
          LeafStep(mem, cur, up, i);
          var cp := r + 20;
          if Rd(mem, cp) == 0 {
            cp := r + 16;
          }
          if Rd(mem, cp) != 0 {
            up := r;
            rp := cp;
            r := Rd(mem, rp);
            cur := if cur.right.Node? then cur.right else cur.left;
          } else {
            more := false;
          }
        }
        LeafStep(mem, cur, up, i);
      }
    }

    // ------------------------------------------------------------ relays to the bins

    method InsertChunk(p: int, s: int)
      requires BinsValid() && p !in binned && Blocks(binned[p := s]) && SizeOf(Head(mem, p)) == s
      modifies this`mem, this`smallmap, this`small, this`treemap, this`trees, this`binned
      ensures BinsValid() && binned == old(binned)[p := s]
      ensures BinsFrame(old(mem), mem, binned)
    {
      if IsSmall(s) { InsertSmallChunk(p, s); } else { InsertLargeChunk(p, s); }
    }

    method UnlinkChunk(p: int, s: int)
      requires BinsValid() && p in binned && binned[p] == s
      modifies this`mem, this`smallmap, this`small, this`treemap, this`trees, this`binned
      ensures BinsValid() && binned == old(binned) - {p}
      ensures BinsFrame(old(mem), mem, old(binned))
    {
      if IsSmall(s) { UnlinkSmallChunk(p, s); } else { UnlinkLargeChunk(p); }
    }

    // ------------------------------------------------------------------------ free

    /** insert_chunk for a chunk that is tagged free but in no bin yet. */
    method FileChunk(p: int, psize: int)
      requires BinsValid() && Loose(H(), p) && psize == cs[p].size
      modifies this`mem, this`smallmap, this`small, this`treemap, this`trees, this`binned
      ensures Ready() && PayloadKept(old(mem), mem, Lives(cs))
    {
      ghost var h := H();
      LooseBlock(h, p);
      assert p !in binned;
      hide BinsInv, HeapInv, Loose, BinsFrame, Blocks, PayloadKept;
      InsertChunk(p, psize);
      FileLoose(h, mem, p);
    }

    /** dispose_chunk: joins a chunk that is in use with its free neighbours and files the result. */
    method DisposeChunk(p0: int, psize0: int)
      requires Ready() && p0 in cs && cs[p0].live && cs[p0].size == psize0
      modifies this`mem, this`smallmap, this`treemap, this`dv, this`dvsize, this`top, this`topsize
      modifies this`small, this`trees, this`binned, this`cs
      ensures Ready() && Lives(cs) == Lives(old(cs)) - {p0}
      ensures PayloadKept(old(mem), mem, Lives(cs))
      ensures top + topsize == old(top + topsize)
      ensures DvCovers(old(dv), old(dvsize), dv, dvsize, top)
    {
      var p, psize := p0, psize0;
      var next := p + psize;
      hide *;
      DisposeTells(H(), p, p - PrevFoot(mem, p), next);
      DvFacts(H());
      SizePositive(H(), p);
      if !Pinuse(Head(mem, p)) {
        var prevsize := PrevFoot(mem, p);
        p := p - prevsize;
        psize := psize + prevsize;
        SizePositive(H(), p);
        if p != dv {
          UnlinkBack(p, prevsize);
        } else if Cinuse(Head(mem, next)) && Pinuse(Head(mem, next)) {
          DvTakesIn(H(), p);
          GrowDv(p, psize, next);
          return;
        } else {
          BackDv(H(), p);
          cs := JoinPrev(cs, p);
          KeptReflexive(mem, Lives(old(cs)));
        }
      } else {
        KeptReflexive(mem, Lives(old(cs)));
      }
      ghost var m1 := mem;
      ConsolidateForward(p, psize);
      KeptTransitive(old(mem), m1, mem, Lives(cs), Lives(old(cs)));
    }

    method GrowDv(p: int, psize: int, next: int)
      requires BinsValid() && p in cs && End(cs, p) in cs
      requires psize == cs[p].size + cs[End(cs, p)].size && next == End(cs, End(cs, p))
      requires TagsOnly(mem, GrownDv(H(), p).mem, binned)
      modifies this`mem, this`dvsize, this`cs
      ensures dvsize == psize
      ensures BinsValid() && H() == GrownDv(old(H()), p)
    {
      hide BinsValid, BinsInv, TagsOnly;
      ghost var h := GrownDv(H(), p);
      assert h == H().(mem := ClearPinuse(mem, next)[p + 4 := psize + 1][p + psize := psize], dvsize := psize,
        cs := Release(JoinPrev(cs, p), p));
      hide *;
      TagsOnlyKeeps(mem, h.mem, smallmap, small, treemap, trees, binned);
      dvsize := psize;
      mem := ClearPinuse(mem, next);
      mem := mem[p + 4 := psize + 1];
      mem := mem[p + psize := psize];
      cs := Release(JoinPrev(cs, p), p);
    }

    /** Consolidating backward with a binned chunk. */
    method UnlinkBack(q: int, prevsize: int)
      requires Ready() && q in cs && !cs[q].live && q != dv && cs[q].size == prevsize
      requires End(cs, q) in cs && cs[End(cs, q)].live
      modifies this`mem, this`smallmap, this`small, this`treemap, this`trees, this`binned, this`cs
      ensures BinsValid() && Mid(H(), q) && cs == JoinPrev(old(cs), q)
      ensures PayloadKept(old(mem), mem, Lives(old(cs)))
    {
      ghost var h := H();
      assert q in binned && binned[q] == prevsize;
      hide BinsInv, HeapInv, Mid, BinsFrame, PayloadKept, JoinPrev;
      UnlinkChunk(q, prevsize);
      BackBinned(h, mem, q);
      cs := JoinPrev(cs, q);
    }

    /** The second half of dispose_chunk: what lies before p is in use. */
    method ConsolidateForward(p: int, psize0: int)
      requires BinsValid() && p in cs && Mid(H(), p) && cs[p].size == psize0
      modifies this`mem, this`smallmap, this`treemap, this`dv, this`dvsize, this`top, this`topsize
      modifies this`small, this`trees, this`binned, this`cs
      ensures Ready() && Lives(cs) == Lives(old(cs)) - {p}
      ensures PayloadKept(old(mem), mem, Lives(cs))
      ensures top + topsize == old(top + topsize)
      ensures DvCovers(old(dv), if p == old(dv) then psize0 else old(dvsize), dv, dvsize, top)
    {
      var psize := psize0;
      var next := p + psize;
      hide *;
      ForwardTells(H(), p, next);
      MidDvFacts(H(), p, next);
      if !Cinuse(Head(mem, next)) {
        if next == top {
          MergeTop(H(), p);
          MergedTopIs(H(), p);
          MergeIntoTop(p, psize);
          return;
        } else if next == dv {
          DvTakesFront(H(), p);
          MergeIntoDv(p, psize);
          return;
        } else {
          psize := AbsorbNext(p, psize, next);
          if p == dv {
            dvsize := psize;
            return;
          }
        }
      } else {
        FreeAlone(H(), p);
        SetFreeAlone(p, psize, next);
      }
      ghost var m1 := mem;
      FileChunk(p, psize);
      KeptTransitive(old(mem), m1, mem, Lives(cs), Lives(cs));
    }

    method SetFreeAlone(p: int, psize: int, next: int)
      requires BinsValid() && p in cs && psize == cs[p].size && next == End(cs, p)
      requires TagsOnly(mem, FreedAlone(H(), p).mem, binned)
      modifies this`mem, this`cs
      ensures BinsValid() && H() == FreedAlone(old(H()), p)
    {
      TagsOnlyKeeps(mem, FreedAlone(H(), p).mem, smallmap, small, treemap, trees, binned);
      hide BinsInv, TagsOnly, SetFreeWithPinuse, Release;
      mem := SetFreeWithPinuse(mem, p, psize, next);
      cs := Release(cs, p);
    }

    /** The chunk behind p is top. */
    method MergeIntoTop(p: int, psize: int)
      requires BinsValid() && p in cs && psize == cs[p].size
      requires TagsOnly(mem, MergedTop(H(), p).mem, binned)
      modifies this`mem, this`top, this`topsize, this`dv, this`dvsize, this`cs
      ensures top == p && if p == old(dv) then dv == 0 && dvsize == 0 else dv == old(dv) && dvsize == old(dvsize)
      ensures BinsValid() && H() == MergedTop(old(H()), p)
    {
      hide *;
      ghost var h := MergedTop(H(), p);
      MergedTopIs(H(), p);
      TagsOnlyKeeps(mem, h.mem, smallmap, small, treemap, trees, binned);
      topsize := topsize + psize;
      var tsize := topsize;
      top := p;
      mem := mem[p + 4 := tsize + 1];
      if p == dv {
        dv := 0;
        dvsize := 0;
      }
      cs := cs - {p};
    }

    /** The chunk behind p is dv. */
    method MergeIntoDv(p: int, psize: int)
      requires BinsValid() && p in cs && psize == cs[p].size && End(cs, p) in cs
      requires TagsOnly(mem, GrownBackDv(H(), p).mem, binned)
      modifies this`mem, this`dv, this`dvsize, this`cs
      ensures dv == p && dvsize == old(dvsize) + psize
      ensures BinsValid() && H() == GrownBackDv(old(H()), p)
    {
      hide BinsValid, BinsInv, TagsOnly;
      ghost var h := GrownBackDv(H(), p);
      assert h == H().(mem := SetFree(mem, p, dvsize + psize), dv := p, dvsize := dvsize + psize,
        cs := JoinedFree(cs, p));
      hide *;
      TagsOnlyKeeps(mem, h.mem, smallmap, small, treemap, trees, binned);
      dvsize := dvsize + psize;
      var dsize := dvsize;
      dv := p;
      mem := SetFree(mem, p, dsize);
      cs := JoinedFree(cs, p);
    }

    /** The chunk behind p is free and binned. */
    method AbsorbNext(p: int, psize0: int, next: int) returns (psize: int)
      requires BinsValid() && p in cs && Mid(H(), p) && cs[p].size == psize0 && next == p + psize0
      requires next in cs && !cs[next].live && next != dv && next != top
      modifies this`mem, this`smallmap, this`small, this`treemap, this`trees, this`binned, this`cs
      ensures BinsValid() && p in cs && psize == cs[p].size && psize0 <= psize
      ensures if dv == p then HeapInv(Heap(mem, cs, top, topsize, dv, psize, binned)) else Loose(H(), p)
      ensures PayloadKept(old(mem), mem, Lives(cs)) && Lives(cs) == Lives(old(cs)) - {p}
    {
      hide *;
      ghost var h := H();
      ForwardTells(h, p, next);
      MidDvFacts(h, p, next);
      var nsize := SizeOf(Head(mem, next));
      psize := psize0 + nsize;
      UnlinkChunk(next, nsize);
      TakeNext(h, mem, p);
      TakenNextIs(h, mem, p);
      SetFreeJoined(h, p, psize);
    }

    method SetFreeJoined(ghost h: Heap, p: int, psize: int)
      requires BinsValid() && p in cs && End(cs, p) in cs && psize == cs[p].size + cs[End(cs, p)].size
      requires h == H().(mem := h.mem, binned := h.binned) && binned == h.binned - {End(cs, p)}
      requires TagsOnly(mem, TakenNext(h, mem, p).mem, binned)
      modifies this`mem, this`cs
      ensures BinsValid() && H() == TakenNext(h, old(mem), p).(dvsize := dvsize)
    {
      TagsOnlyKeeps(mem, TakenNext(h, mem, p).mem, smallmap, small, treemap, trees, binned);
      hide BinsInv, TagsOnly, SetFree, JoinedFree;
      mem := SetFree(mem, p, psize);
      cs := JoinedFree(cs, p);
    }

    // ---------------------------------------------------------- best fit in the trees

    /** The second loop of tmalloc_large, and the loop of tmalloc_small: find the smallest of a
        tree or subtree. */
    method LeftmostWalk(t1: int, v0: int, r0: int, nb: int, ghost tt: Tree, ghost p1: int,
          ghost i: int) returns (v: int, rsize: int)
      requires t1 == Root(tt) && Rep(mem, tt, p1, i) && r0 <= 0x1_0000_0000
      ensures rsize == if LeastRem(tt, nb) < r0 then LeastRem(tt, nb) else r0
      ensures rsize == r0 ==> v == v0
      ensures rsize < r0 ==> exists s :: Holds(tt, v, s) && Rem(s, nb) == rsize
    {
      hide *;
      var t := t1;
      v, rsize := v0, r0;
      ghost var cur, parent, s := tt, p1, 0;
      PartSelf(tt);
      while t != 0
        invariant t == Root(cur) && Rep(mem, cur, parent, i) && Part(tt, cur)
        invariant (if LeastRem(cur, nb) < rsize then LeastRem(cur, nb) else rsize) ==
                  (if LeastRem(tt, nb) < r0 then LeastRem(tt, nb) else r0)
        invariant rsize <= r0
        invariant if rsize == r0 then v == v0 else Holds(tt, v, s) && Rem(s, nb) == rsize
        decreases cur
      {
        WalkNode(mem, cur, parent, i);
        PartChildren(tt, cur);
        LeftmostStep(tt, cur, nb, v, rsize);
        var trem := Rem(SizeOf(Head(mem, t)), nb);
        if trem < rsize {
          rsize := trem;
          v := t;
          s := cur.size;
        }
        parent := t;
        t := if Child0(mem, t) != 0 then Child0(mem, t) else Child1(mem, t);
        cur := LeftmostChild(cur);
      }
      EmptyWalk(mem, cur, parent, i, nb, r0, tt);
    }

    /** The first loop of tmalloc_large: the path of nb through the tree of its bin. */
    method FitInTree(idx: nat, nb: int, ghost t0: Tree) returns (t: int, v: int, rsize: int, ghost tt: Tree,
          ghost parent: int, ghost turns: nat)
      requires idx < NTREEBINS && 256 <= nb < TWO32 && Rd(mem, TreeBin(idx)) == Root(t0)
      requires t0.Node? ==> WalkReady(mem, t0, TreeBin(idx), idx, nb, BinLo(idx), BinWidth(idx))
      requires Sized(t0)
      ensures Remains(t0, tt, nb, v, rsize) && t == Root(tt) && Rep(mem, tt, parent, idx)
      ensures rsize == 0 ==> v != 0
      ensures turns <= 30 - LeftShift(idx)
    {
      if t0.Node? { WalkDepth(mem, t0, TreeBin(idx), idx, nb); }
      LeftShiftFits(idx);
      hide *;
      turns := 0;
      v, rsize := 0, 0x1_0000_0000 - nb;
      t := Rd(mem, TreeBin(idx));
      tt, parent := t0, TreeBin(idx);
      StartFit(mem, t0, nb, TreeBin(idx), idx, BinLo(idx), BinWidth(idx));
      if t != 0 {
        var sizebits := SizeBits(nb, idx);
        var rst := 0;
        WalkStart(mem, t0, idx, nb);
        ghost var lo, w, u := BinLo(idx), BinWidth(idx), Pow2(LeftShift(idx));
        ghost var sub, up := Leaf, 0;
        while true
          invariant tt.Node? && WalkReady(mem, tt, parent, idx, nb, lo, w)
          invariant t == tt.addr && Scaled(sizebits, nb, lo, w, u)
          invariant Part(t0, tt) && Fit(t0, nb, v, rsize) && 0 < rsize
          invariant Covered(t0, tt, sub, nb, rsize) && Beyond(t0, sub, lo + w, nb)
          invariant rst == Root(sub) && Rep(mem, sub, up, idx)
          invariant turns + Height(tt) <= Height(t0)
          decreases tt
        {
          HeightBelow(tt);
          turns := turns + 1;
          WalkOpen(mem, tt, parent, idx, nb, lo, w);
          WalkNode(mem, tt, parent, idx);
          ghost var c0, half, lo', w', u' := WalkStep(mem, tt, parent, idx, nb, lo, w, sizebits, u);
          FitStep(mem, t0, tt, sub, parent, idx, lo, w, nb, v, rsize);
          var trem := Rem(SizeOf(Head(mem, t)), nb);
          if trem < rsize {
            v := t;
            rsize := trem;
            if rsize == 0 {
              return;
            }
          }
          var rt := Child1(mem, t);
          var child := Rd(mem, t + 16 + 4 * (sizebits / 0x8000_0000));
          if rt != 0 && rt != child {
            rst := rt;
            sub, up := tt.right, t;
          }
          parent := t;
          t := child;
          if t == 0 {
            t := rst;
            tt, parent := sub, up;
            return;
          }
          sizebits := sizebits * 2 % 0x1_0000_0000;
          tt, lo, w, u := half, lo', w', u';
        }
      }
    }

    /** The search of tmalloc_large: over all trees, the smallest chunk of at least nb bytes. */
    method BestTreeFit(nb: int) returns (v: int, rsize: int)
      requires BinsValid() && 256 <= nb < TWO32 && nb % 8 == 0
      ensures BestIn(binned, nb, v, rsize)
    {
      hide *;
      BinsParts(mem, smallmap, small, treemap, trees, binned);
      var idx := TreeIndex(nb);
      TreeIndexBounds(nb);
      InOwnBin(mem, treemap, trees, binned, nb, idx);
      OnPath(mem, trees[idx], nb, idx);
      var t;
      ghost var tt, parent, home := Leaf, 0, idx;
      ghost var turns;
      t, v, rsize, tt, parent, turns := FitInTree(idx, nb, trees[idx]);
      WalkRoot(mem, tt, parent, idx);
      if t == 0 && v == 0 {
        StillNone(trees[idx], nb, v, rsize);
        var leftbits := Above(treemap, idx);
        if !IsZero(leftbits) {
          NothingMet(trees[idx], nb, rsize);
          NextBin(mem, treemap, trees, binned, nb, idx, rsize);
          var i := TrailingZeros(LeastBit(leftbits));
          t := Rd(mem, TreeBin(i));
          tt, parent, home := trees[i], TreeBin(i), i;
        } else {
          NoNextBin(mem, treemap, trees, binned, nb, idx, rsize);
        }
      } else {
        SomethingMet(trees, nb, idx, tt, v, rsize);
      }
      NarrowedParts(trees, nb, idx, home, tt, v, rsize);
      RoomBounded(trees[home], tt, nb, v, rsize);
      ghost var v0, r0 := v, rsize;
      v, rsize := LeftmostWalk(t, v, rsize, nb, tt, parent, home);
      SearchEnds(mem, treemap, trees, binned, nb, idx, home, tt, v0, r0, v, rsize);
    }

    // ------------------------------------------------------------ taking free chunks

    /** set_inuse_and_pinuse on a chunk that is in no bin. */
    method UseWhole(p: int, s: int)
      requires BinsValid() && Loose(H(), p) && s == cs[p].size
      modifies this`mem, this`cs
      ensures Ready() && Lives(cs) == Lives(old(cs))[p := s]
      ensures PayloadKept(old(mem), mem, Lives(old(cs)))
    {
      hide *;
      ghost var h := H();
      LooseParts(h, p);
      TakeLoose(h, p);
      TakenIs(h, p);
      TagsOnlyKeeps(mem, Taken(h, p).mem, smallmap, small, treemap, trees, binned);
      StoreInuse(p, s);
      cs := Take(cs, p);
    }

    method StoreInuse(p: int, s: int)
      modifies this`mem
      ensures mem == SetInuseAndPinuse(old(mem), p, s)
    {
      mem := mem[p + 4 := s + 3];
      mem := SetPinuse(mem, p + s);
    }

    /** set_size_and_pinuse_of_inuse_chunk and set_size_and_pinuse_of_free_chunk: the first nb
        bytes of a chunk that is in no bin are used, the remainder stays free. */
    method SplitChunkAt(p: int, nb: int, rsize: int)
      requires BinsValid() && Loose(H(), p) && cs[p].size == nb + rsize
      requires 16 <= nb && nb % 8 == 0 && 16 <= rsize
      modifies this`mem, this`cs
      ensures BinsValid() && Loose(H(), p + nb) && p + nb in cs && cs[p + nb].size == rsize
      ensures Lives(cs) == Lives(old(cs))[p := nb]
      ensures PayloadKept(old(mem), mem, Lives(old(cs)))
    {
      hide *;
      ghost var h := H();
      LooseParts(h, p);
      CarveLoose(h, p, nb);
      CarvedIs(h, p, nb);
      TagsOnlyKeeps(mem, Carved(h, p, nb).mem, smallmap, small, treemap, trees, binned);
      StoreSplit(p, nb, rsize);
      cs := Carve(cs, p, nb);
    }

    method StoreSplit(p: int, nb: int, rsize: int)
      modifies this`mem
      ensures mem == SetFree(SetInuseChunk(old(mem), p, nb), p + nb, rsize)
    {
      mem := mem[p + 4 := nb + 3];
      var r := p + nb;
      mem := mem[r + 4 := rsize + 1];
      mem := mem[r + rsize := rsize];
    }

    /** replace_dv: the old dv goes to its small bin. */
    method ReplaceDv(r: int, rsize: int)
      requires BinsValid() && Loose(H(), r) && cs[r].size == rsize && dvsize < 256
      modifies this`mem, this`smallmap, this`small, this`binned, this`dv, this`dvsize
      ensures dv == r && dvsize == rsize
      ensures Ready() && PayloadKept(old(mem), mem, Lives(cs))
    {
      hide *;
      ghost var h := H();
      KeptReflexive(mem, Lives(cs));
      var dvs := dvsize;
      if dvs != 0 {
        DvBlock(h, r);
        InsertSmallChunk(dv, dvs);
        FileDv(h, mem, r);
        LooseDv(h.(mem := mem, binned := binned, dv := 0, dvsize := 0), r);
      } else {
        LooseDv(h, r);
      }
      dvsize := rsize;
      dv := r;
    }

    /** What follows tmalloc_large's search: split the best fit and file the remainder. */
    method AllocateFitted(v: int, nb: int, rsize: int)
      requires Ready() && v in binned && 256 <= binned[v] == nb + rsize
      requires 16 <= nb && nb % 8 == 0 && 0 <= rsize
      modifies this`mem, this`smallmap, this`treemap, this`dv, this`dvsize, this`top, this`topsize
      modifies this`small, this`trees, this`binned, this`cs
      ensures Ready() && Grants(old(cs), cs, v, nb) && PayloadKept(old(mem), mem, Lives(old(cs)))
      ensures dv == old(dv) && dvsize == old(dvsize)
      ensures Tight(old(cs), cs, v, nb)
      ensures top == old(top) && topsize == old(topsize)
    {
      hide *;
      ghost var h, lives := H(), Lives(cs);
      UnlinkLargeChunk(v);
      Unfile(h, mem, v);
      LooseParts(H(), v);
      ghost var m1 := mem;
      LivesFree(cs, v);
      if rsize < 16 {
        UseWhole(v, rsize + nb);
        GrantWhole(h.cs, cs, v, nb + rsize, nb);
        KeptTransitive(h.mem, m1, mem, lives, lives);
      } else {
        SplitChunkAt(v, nb, rsize);
        KeptTransitive(h.mem, m1, mem, lives, lives);
        ghost var m2 := mem;
        FileChunk(v + nb, rsize);
        GrantPart(h.cs, cs, v, nb);
        KeptWith(h.mem, m2, mem, lives, v, nb);
      }
    }

    /** tmalloc_large: null exactly when no tree chunk fits, or dv fits at least as well. */
    method TmallocLarge(nb: int) returns (m: int)
      requires Ready() && 256 <= nb < TWO32 && nb % 8 == 0
      modifies this`mem, this`smallmap, this`treemap, this`dv, this`dvsize, this`top, this`topsize
      modifies this`small, this`trees, this`binned, this`cs
      ensures Ready() && top == old(top) && topsize == old(topsize)
      ensures m == 0 <==> forall x | x in old(binned) && 256 <= old(binned)[x] && nb <= old(binned)[x] ::
                nb <= old(dvsize) <= old(binned)[x]
      ensures m == 0 ==> H() == old(H())
      ensures m != 0 ==> Grants(old(cs), cs, m - 8, nb) && PayloadKept(old(mem), mem, Lives(old(cs)))
      ensures dv == old(dv) && dvsize == old(dvsize)
      ensures m != 0 ==> Tight(old(cs), cs, m - 8, nb)
      ensures m != 0 ==> m - 8 in old(binned) && TightFit(old(binned), nb, m - 8)
    {
      hide *;
      BinsParts(mem, smallmap, small, treemap, trees, binned);
      DvBound(H());
      var v, rsize := BestTreeFit(nb);
      BestMeans(binned, nb, v, rsize, dvsize);
      if v != 0 && rsize < (dvsize - nb) % 0x1_0000_0000 {
        AllocateFitted(v, nb, rsize);
        return v + 8;
      }
      return 0;
    }

    /** tmalloc_small: the smallest tree chunk of all. */
    method TmallocSmall(nb: int) returns (m: int)
      requires Ready() && 16 <= nb < 256 && nb % 8 == 0 && dvsize < nb && !IsZero(treemap)
      modifies this`mem, this`smallmap, this`treemap, this`dv, this`dvsize, this`top, this`topsize
      modifies this`small, this`trees, this`binned, this`cs
      ensures Ready() && top == old(top) && topsize == old(topsize)
      ensures m != 0 && Grants(old(cs), cs, m - 8, nb) && PayloadKept(old(mem), mem, Lives(old(cs)))
      ensures Tight(old(cs), cs, m - 8, nb)
      ensures m - 8 in old(binned) && TightFit(old(binned), nb, m - 8)
      ensures var s := old(binned)[m - 8]; if s < nb + 16 then dv == old(dv) &&
                dvsize == old(dvsize) else dv == m - 8 + nb && dvsize == s - nb
    {
      hide *;
      BinsParts(mem, smallmap, small, treemap, trees, binned);
      FirstBin(mem, treemap, trees, binned, nb);
      var i := TrailingZeros(LeastBit(treemap));
      ghost var tt := trees[i];
      WalkNode(mem, tt, TreeBin(i), i);
      var t := Rd(mem, TreeBin(i));
      var v := t;
      var rsize := Rem(SizeOf(Head(mem, t)), nb);
      ghost var r0 := rsize;
      RemBelow(tt.size, nb);
      t := if Child0(mem, t) != 0 then Child0(mem, t) else Child1(mem, t);
      v, rsize := LeftmostWalk(t, v, rsize, nb, LeftmostChild(tt), tt.addr, i);
      LeastOfTree(tt, BinLo(i), BinWidth(i), nb, v, rsize);
      StartSmall(nb);
      FirstTreeBest(mem, treemap, trees, binned, nb, 0, i, v, rsize);
      BestMeans(binned, nb, v, rsize, 0);
      AllocateSmallest(v, nb, rsize);
      return v + 8;
    }

    /** What follows tmalloc_small's search: split, and let the remainder be the new dv. */
    method AllocateSmallest(v: int, nb: int, rsize: int)
      requires Ready() && v in binned && 256 <= binned[v] == nb + rsize
      requires 16 <= nb && nb % 8 == 0 && 0 <= rsize && dvsize < 256
      modifies this`mem, this`smallmap, this`treemap, this`dv, this`dvsize, this`top, this`topsize
      modifies this`small, this`trees, this`binned, this`cs
      ensures Ready() && Grants(old(cs), cs, v, nb) && PayloadKept(old(mem), mem, Lives(old(cs)))
      ensures if rsize < 16 then dv == old(dv) && dvsize == old(dvsize) else dv == v + nb && dvsize == rsize
      ensures Tight(old(cs), cs, v, nb)
      ensures top == old(top) && topsize == old(topsize)
    {
      hide *;
      ghost var h, lives := H(), Lives(cs);
      UnlinkLargeChunk(v);
      Unfile(h, mem, v);
      LooseParts(H(), v);
      ghost var m1 := mem;
      LivesFree(cs, v);
      if rsize < 16 {
        UseWhole(v, rsize + nb);
        GrantWhole(h.cs, cs, v, nb + rsize, nb);
        KeptTransitive(h.mem, m1, mem, lives, lives);
      } else {
        SplitToDv(h.mem, v, nb, rsize);
        GrantPart(h.cs, cs, v, nb);
      }
    }

    /** A chunk that is in no bin split in an allocated part and the new dv. */
    method SplitToDv(ghost m0: Mem, p: int, nb: int, rsize: int)
      requires BinsValid() && Loose(H(), p) && cs[p].size == nb + rsize && dvsize < 256
      requires 16 <= nb && nb % 8 == 0 && 16 <= rsize
      requires PayloadKept(m0, mem, Lives(cs)) && p !in Lives(cs)
      modifies this`mem, this`smallmap, this`treemap, this`dv, this`dvsize, this`top, this`topsize
      modifies this`small, this`trees, this`binned, this`cs
      ensures Ready() && Lives(cs) == Lives(old(cs))[p := nb]
      ensures PayloadKept(m0, mem, Lives(old(cs)))
      ensures dv == p + nb && dvsize == rsize
      ensures top == old(top) && topsize == old(topsize)
    {
      hide *;
      ghost var m1, lives := mem, Lives(cs);
      SplitChunkAt(p, nb, rsize);
      KeptTransitive(m0, m1, mem, lives, lives);
      ghost var m2 := mem;
      ReplaceDv(p + nb, rsize);
      KeptWith(m0, m2, mem, lives, p, nb);
    }

    // ---------------------------------------------------------------------- malloc

    /** Remainderless fit to a small bin. */
    method SmallExact(idx: nat, nb: int) returns (m: int)
      requires Ready() && idx < 32 && smallmap[idx] && nb <= 8 * idx < nb + 16
      modifies this`mem, this`smallmap, this`treemap, this`dv, this`dvsize, this`top, this`topsize
      modifies this`small, this`trees, this`binned, this`cs
      ensures Ready() && top == old(top) && topsize == old(topsize)
      ensures m != 0 && Grants(old(cs), cs, m - 8, nb) && PayloadKept(old(mem), mem, Lives(old(cs)))
      ensures dv == old(dv) && dvsize == old(dvsize)
      ensures Tight(old(cs), cs, m - 8, nb)
      ensures m - 8 in old(binned) && old(binned)[m - 8] == 8 * idx
    {
      hide *;
      ghost var h, lives := H(), Lives(cs);
      var b := SmallBin(idx);
      var p := Fd(mem, b);
      UnlinkFirstSmallChunk(b, p, idx);
      Unfile(h, mem, p);
      LooseParts(H(), p);
      ChunkPositive(h, p);
      LivesFree(cs, p);
      ghost var m1 := mem;
      UseWhole(p, 8 * idx);
      GrantWhole(h.cs, cs, p, 8 * idx, nb);
      KeptTransitive(h.mem, m1, mem, lives, lives);
      m := p + 8;
    }

    /** A chunk of the next non-empty small bin, split; the remainder is the new dv. */
    method SmallNext(idx: nat, nb: int, smallbits: BinMap) returns (m: int)
      requires Ready() && idx < 32 && nb == 8 * idx && 16 <= nb && dvsize < 256
      requires smallbits == ShiftRight(smallmap, idx) && !smallbits[0] && !smallbits[1] && !IsZero(smallbits)
      modifies this`mem, this`smallmap, this`treemap, this`dv, this`dvsize, this`top, this`topsize
      modifies this`small, this`trees, this`binned, this`cs
      ensures Ready() && top == old(top) && topsize == old(topsize)
      ensures m != 0 && Grants(old(cs), cs, m - 8, nb) && PayloadKept(old(mem), mem, Lives(old(cs)))
      ensures Tight(old(cs), cs, m - 8, nb)
      ensures m - 8 in old(binned) && Lowest(old(smallmap), idx, old(binned)[m - 8]) && nb + 16 <= old(binned)[m - 8]
      ensures dv == m - 8 + nb && dvsize == old(binned)[m - 8] - nb
    {
      hide *;
      NextSmallBin(smallmap, idx);
      ghost var h, lives, smallmap0 := H(), Lives(cs), smallmap;
      var leftbits := And(ShiftLeft(smallbits, idx), LeftBits(IdxBit(idx)));
      var leastbit := LeastBit(leftbits);
      var i := TrailingZeros(leastbit);
      var b := SmallBin(i);
      var p := Fd(mem, b);
      UnlinkFirstSmallChunk(b, p, i);
      Unfile(h, mem, p);
      LooseParts(H(), p);
      ChunkPositive(h, p);
      LivesFree(cs, p);
      var rsize := 8 * i - nb;
      SplitToDv(h.mem, p, nb, rsize);
      GrantPart(h.cs, cs, p, nb);
      MakeLowest(smallmap0, idx, i);
      m := p + 8;
    }

    /** Use of dv: split when the remainder can be a chunk, else exhausted. */
    method UseDv(nb: int) returns (m: int)
      requires Ready() && 16 <= nb <= dvsize && nb % 8 == 0
      modifies this`mem, this`smallmap, this`treemap, this`dv, this`dvsize, this`top, this`topsize
      modifies this`small, this`trees, this`binned, this`cs
      ensures Ready() && top == old(top) && topsize == old(topsize)
      ensures m != 0 && Grants(old(cs), cs, m - 8, nb) && PayloadKept(old(mem), mem, Lives(old(cs)))
      ensures m - 8 == old(dv) && Tight(old(cs), cs, m - 8, nb)
      ensures if nb + 16 <= old(dvsize) then dv == m - 8 + nb && dvsize == old(dvsize) - nb else dv == 0 && dvsize == 0
    {
      hide *;
      ghost var h := H();
      DvBound(h);
      DvLoose(h);
      LivesFree(cs, dv);
      var rsize := dvsize - nb;
      var p := dv;
      if rsize >= 16 {
        dv := 0;
        dvsize := 0;
        SplitChunkAt(p, nb, rsize);
        LooseDv(H(), p + nb);
        dv := p + nb;
        dvsize := rsize;
        GrantPart(h.cs, cs, p, nb);
      } else {
        var dvs := dvsize;
        dvsize := 0;
        dv := 0;
        UseWhole(p, dvs);
        GrantWhole(h.cs, cs, p, dvs, nb);
      }
      m := p + 8;
    }

    /** The bottom of top is used. */
    method UseTop(nb: int) returns (m: int)
      requires Ready() && 16 <= nb < topsize && nb % 8 == 0
      modifies this`mem, this`top, this`topsize, this`cs
      ensures Ready() && top == old(top) + nb && topsize == old(topsize) - nb
      ensures m != 0 && Grants(old(cs), cs, m - 8, nb) && PayloadKept(old(mem), mem, Lives(old(cs)))
      ensures m - 8 == old(top) && Tight(old(cs), cs, m - 8, nb)
    {
      hide *;
      ghost var h := H();
      SplitTop(h, nb);
      TopSplitIs(h, nb);
      TopPositive(h);
      TagsOnlyKeeps(mem, TopSplit(h, nb).mem, smallmap, small, treemap, trees, binned);
      topsize := topsize - nb;
      var rsize := topsize;
      var p := top;
      top := p + nb;
      mem := mem[top + 4 := rsize + 1];
      mem := mem[p + 4 := nb + 3];
      cs := TakeTop(cs, p, nb);
      GrantPart(h.cs, cs, p, nb);
      m := p + 8;
    }

    // -------------------------------------------------------------- system allocation

    /** The books of the segment agree: footprint, segment size and the heap's break. */
    ghost predicate Booked()
      reads this, heap
      ensures Booked() <==>
                && heap.Valid() && footprint == segSize && heap.kernelHeapTop == HEAP_BASE + segSize
                && (if top == 0 then segSize == 0 else heap.kernelHeapTop == top + topsize + TOP_FOOT_SIZE)
    {
      && heap.Valid() && footprint == segSize && heap.kernelHeapTop == HEAP_BASE + segSize
      && (if top == 0 then segSize == 0 else heap.kernelHeapTop == top + topsize + TOP_FOOT_SIZE)
    }

    ghost predicate Valid()
      reads this, heap
      ensures Valid() <==> BinsValid() && Booked() && (if top == 0 then Fresh(H()) else HeapInv(H()))
    {
      BinsValid() && Booked() && (if top == 0 then Fresh(H()) else HeapInv(H()))
    }

    /** MORECORE: fresh pages come cleared. */
    method MoreCore(size: int) returns (r: Expansion)
      requires heap.Valid() && size % FRAME_SIZE == 0
      modifies this`mem, heap
      ensures r.At? <==> old(heap.Serves(size))
      ensures r.At? ==> heap.Valid() && heap.kernelHeapTop == old(heap.kernelHeapTop) + size
      ensures r.At? ==> r.address == if size >= 0 then old(heap.kernelHeapTop) else heap.kernelHeapTop
      ensures mem == if r.At? && size > 0 then Cleared(old(mem), r.address, r.address + size) else old(mem)
    {
      r := heap.Expand(size);
      if r.At? && size > 0 {
        mem := Cleared(mem, r.address, r.address + size);
      }
    }

    /** The first part of sys_alloc: get at least enough for nb, by the contiguous path and, after
        that was given up, by the other one, which in this configuration extends the heap too. */
    method Obtain(nb: int) returns (r: Supply)
      requires Booked() && 16 <= nb < TWO32 && 0 <= topsize <= nb && (top == 0 ==> topsize == 0)
      modifies this`mem, this`contiguous, heap
      ensures r.Space? ==> heap.Valid() && r.tbase == old(heap.kernelHeapTop) && heap.kernelHeapTop == r.tbase + r.tsize
      ensures r.Space? ==> 0 < r.tsize && r.tsize % 4096 == 0 && nb + SYS_ALLOC_PADDING <= topsize + r.tsize
      ensures r.Space? ==> mem == Cleared(old(mem), r.tbase, r.tbase + r.tsize)
      ensures r == None ==> mem == old(mem) && Booked() && heap.kernelHeapTop == old(heap.kernelHeapTop)
      ensures r == None <==>
                nb + SYS_ALLOC_PADDING + 4095 >= TWO32 ||
                HALF_MAX_SIZE_T <= Demand(nb, old(contiguous), top, topsize)
      ensures r.Space? ==> r.tsize == Demand(nb, old(contiguous), top, topsize) && contiguous == old(contiguous)
      ensures r == None ==> contiguous == (old(contiguous) && nb + SYS_ALLOC_PADDING + 4095 >= TWO32)
      ensures r == Halt <==> r != None && !old(heap.Serves(Demand(nb, contiguous, top, topsize)))
      ensures r.Space? ==> LeastPages(r.tsize, nb + 48 - if old(contiguous) && top != 0 then topsize else 0)
    {
      hide PageAlign;
      var asize := PageAlign((nb + SYS_ALLOC_PADDING) % TWO32);
      WrapCaught(nb);
      if asize <= nb {
        return None;
      }
      DemandBounds(nb, contiguous, top, topsize);
      DemandIsLeast(nb, contiguous, top, topsize, Demand(nb, contiguous, top, topsize));
      r := None;
      if contiguous {
        var ssize := if top == 0 then asize else PageAlign((nb - topsize + SYS_ALLOC_PADDING) % TWO32);
        if (top != 0 || ssize > nb) && ssize < HALF_MAX_SIZE_T {
          var br := MoreCore(ssize);
          if br == Panic {
            return Halt;
          }
          assert br.address == HEAP_BASE + segSize;
          r := Space(br.address, ssize);
        }
        if r == None {
          contiguous := false;
        }
      }
      if r == None && asize < HALF_MAX_SIZE_T {
        var br := MoreCore(asize);
        if br == Panic {
          return Halt;
        }
        var end := heap.kernelHeapTop;
        if br.address < end && end - br.address > nb + TOP_FOOT_SIZE {
          r := Space(br.address, end - br.address);
        }
      }
    }

    /** The second part of sys_alloc: the new space starts the segment, or is appended to it. */
    method Append(ghost m0: Mem, tbase: int, tsize: int)
      requires BinsInv(m0, smallmap, small, treemap, trees, binned) && mem == Cleared(m0, tbase, tbase + tsize)
      requires heap.Valid() && heap.kernelHeapTop == tbase + tsize && 0 < tsize && tsize % 4096 == 0
      requires footprint == segSize && tbase == HEAP_BASE + segSize
      requires if top == 0 then Fresh(H().(mem := m0)) && segSize == 0 else
                HeapInv(H().(mem := m0)) &&
                tbase == top + topsize + TOP_FOOT_SIZE
      modifies this`mem, this`footprint, this`segSize, this`top, this`topsize, this`trimCheck
      ensures Ready() && Booked() && PayloadKept(m0, mem, Lives(cs))
      ensures top == if old(top) == 0 then HEAP_BASE else old(top)
      ensures trimCheck == TRIM_THRESHOLD
      ensures topsize == old(topsize) + tsize - (if old(top) == 0 then TOP_FOOT_SIZE else 0)
    {
      hide *;
      HeapConstants();
      SegmentFits(heap);
      ghost var h := H().(mem := m0);
      footprint := footprint + tsize;
      segSize := segSize + tsize;
      if top == 0 {
        FirstTop(h, tbase, tsize);
        FreshParts(h);
        FirstBins(m0, smallmap, small, treemap, trees, binned, tbase, tsize);
        FirstKept(m0, InitTop(InitBins(mem, NSMALLBINS), tbase, tsize - TOP_FOOT_SIZE), cs);
        InitHeaders();
        StoreTop(tbase, tsize - TOP_FOOT_SIZE);
      } else {
        GrowTopKeeps(h, tbase, tsize);
        TagsOnlyKeeps(m0, InitTop(mem, top, topsize + tsize), smallmap, small, treemap, trees, binned);
        StoreTop(top, topsize + tsize);
      }
    }

    /** init_top. */
    method StoreTop(p: int, psize: int)
      modifies this`mem, this`top, this`topsize, this`trimCheck
      ensures mem == InitTop(old(mem), p, psize) && top == p && topsize == psize && trimCheck == TRIM_THRESHOLD
    {
      top := p;
      topsize := psize;
      mem := mem[p + 4 := psize + 1];
      mem := mem[p + psize + 4 := TOP_FOOT_SIZE];
      trimCheck := TRIM_THRESHOLD;
    }

    /** init_bins. */
    method InitHeaders()
      modifies this`mem
      ensures mem == InitBins(old(mem), NSMALLBINS)
    {
      var i := 0;
      while i < NSMALLBINS
        invariant 0 <= i <= NSMALLBINS && mem == InitBins(old(mem), i)
      {
        var bin := SmallBin(i);
        mem := mem[bin + 8 := bin];
        mem := mem[bin + 12 := bin];
        i := i + 1;
      }
    }

    /** The end of sys_alloc: the request is taken from the new or extended top. */
    method AppendAndUse(ghost m0: Mem, tbase: int, tsize: int, nb: int) returns (m: int)
      requires BinsInv(m0, smallmap, small, treemap, trees, binned) && mem == Cleared(m0, tbase, tbase + tsize)
      requires heap.Valid() && heap.kernelHeapTop == tbase + tsize && 0 < tsize && tsize % 4096 == 0
      requires footprint == segSize && tbase == HEAP_BASE + segSize
      requires if top == 0 then Fresh(H().(mem := m0)) && segSize == 0 else
                HeapInv(H().(mem := m0)) &&
                tbase == top + topsize + TOP_FOOT_SIZE
      requires 16 <= nb && nb % 8 == 0 && 0 <= topsize && nb + SYS_ALLOC_PADDING <= topsize + tsize
      modifies this`mem, this`footprint, this`segSize, this`top, this`topsize, this`trimCheck, this`cs
      ensures Ready() && Booked() && trimCheck == TRIM_THRESHOLD && m != 0 && 0x2000_0000 <= top
      ensures m - 8 == if old(top) == 0 then HEAP_BASE else old(top)
      ensures Tight(old(cs), cs, m - 8, nb) && Grants(old(cs), cs, m - 8, nb) && PayloadKept(m0, mem, Lives(old(cs)))
    {
      hide *;
      HeapConstants();
      ghost var lives := Lives(cs);
      Append(m0, tbase, tsize);
      ghost var m1 := mem;
      m := 0;
      if nb < topsize {
        m := UseTop(nb);
        KeptTransitive(m0, m1, mem, lives, lives);
      }
      TopPositive(H());
    }

    /** sys_alloc: after the heap has grown, top always has room for nb. */
    method SysAlloc(nb: int) returns (r: Reply)
      requires Valid() && 16 <= nb < TWO32 && (nb % 8 == 0 || nb == 0xFFFF_FFFF) && topsize <= nb
      modifies this, heap
      ensures r.Mem? ==> dv == old(dv) && dvsize == old(dvsize)
      ensures r.Mem? ==> Valid() && binned == old(binned)
      ensures r == Halted <==> r != Mem(0) && !old(heap.Serves(Demand(nb, contiguous, top, topsize)))
      ensures r.Mem? && r.ptr != 0 ==>
                heap.kernelHeapTop ==
                old(heap.kernelHeapTop) + Demand(nb, old(contiguous), old(top), old(topsize))
      ensures r.Mem? && r.ptr != 0 ==>
                LeastPages(heap.kernelHeapTop - old(heap.kernelHeapTop),
                  nb + 48 - if old(contiguous && top != 0) then old(topsize) else 0)
      ensures r.Mem? ==> contiguous == (old(contiguous) && (r.ptr != 0 || nb + SYS_ALLOC_PADDING + 4095 >= TWO32))
      ensures r == Mem(0) <==>
                nb + SYS_ALLOC_PADDING + 4095 >= TWO32 ||
                HALF_MAX_SIZE_T <= Demand(nb, old(contiguous), old(top), old(topsize))
      ensures r == Mem(0) ==> H() == old(H()) && heap.kernelHeapTop == old(heap.kernelHeapTop)
      ensures r.Mem? && r.ptr != 0 ==> r.ptr - 8 == if old(top) == 0 then HEAP_BASE else old(top)
      ensures r.Mem? ==> trimCheck == if r.ptr != 0 then TRIM_THRESHOLD else old(trimCheck)
      ensures r.Mem? && r.ptr != 0 ==> Tight(old(cs), cs, r.ptr - 8, nb)
      ensures r.Mem? && r.ptr != 0 ==> Grants(old(cs), cs, r.ptr - 8, nb) && PayloadKept(old(mem), mem, Lives(old(cs)))
    {
      hide *;
      HeapConstants();
      TopBounds(H());
      ghost var m0 := mem;
      var s := Obtain(nb);
      if s == Halt {
        return Halted;
      }
      if s.Space? {
        var m := AppendAndUse(m0, s.tbase, s.tsize, nb);
        return Mem(m);
      }
      return Mem(0);
    }

    /** The small-request half of dlmalloc: an exact bin, the next bin, the least tree chunk. It
        leaves the request to dv, top or the system when nothing binned fits. */
    method SmallRequest(nb: int) returns (m: int)
      requires Valid() && 16 <= nb < 256 && nb % 8 == 0
      modifies this`mem, this`smallmap, this`treemap, this`dv, this`dvsize, this`top, this`topsize
      modifies this`small, this`trees, this`binned, this`cs
      ensures Valid() && top == old(top) && topsize == old(topsize)
      ensures m == 0 ==> H() == old(H()) && LeftToRest(H(), nb)
      ensures m != 0 ==>
                Placed(old(H()), nb, m - 8) && DvAfter(old(H()), nb, m - 8, dv, dvsize) &&
                Tight(old(cs), cs, m - 8, nb)
      ensures m != 0 ==> Ready() && Grants(old(cs), cs, m - 8, nb) && PayloadKept(old(mem), mem, Lives(old(cs)))
    {
      hide *;
      BinsParts(mem, smallmap, small, treemap, trees, binned);
      UnmarkedWhenFresh(H(), smallmap, small, treemap, trees);
      var idx := nb / 8;
      var smallbits := ShiftRight(smallmap, idx);
      SmallBitsMean(smallmap, idx);
      AllSeen(mem, smallmap, small, treemap, trees, binned, nb);
      if smallbits[0] || smallbits[1] {
        TopBounds(H());
        ghost var h, seen := H(), smallmap;
        idx := idx + (if smallbits[0] then 0 else 1);
        m := SmallExact(idx, nb);
        DvAfterIs(h, nb, m - 8, dv, dvsize);
        ExactPlaced(h, seen, smallbits, nb, m - 8);
      } else if nb > dvsize {
        m := SmallElsewhere(nb, idx, smallbits);
      } else {
        DvPreferred(H(), smallmap, smallbits, nb);
        m := 0;
      }
    }

    /** A small request that neither its own bins nor dv can serve. */
    method SmallElsewhere(nb: int, idx: nat, smallbits: BinMap) returns (m: int)
      requires Valid() && 16 <= nb < 256 && nb % 8 == 0 && idx == nb / 8 && dvsize < nb
      requires smallbits == ShiftRight(smallmap, idx) && !smallbits[0] && !smallbits[1]
      modifies this`mem, this`smallmap, this`treemap, this`dv, this`dvsize, this`top, this`topsize
      modifies this`small, this`trees, this`binned, this`cs
      ensures Valid() && top == old(top) && topsize == old(topsize)
      ensures m == 0 ==> H() == old(H()) && LeftToRest(H(), nb)
      ensures m != 0 ==>
                Placed(old(H()), nb, m - 8) && DvAfter(old(H()), nb, m - 8, dv, dvsize) &&
                Tight(old(cs), cs, m - 8, nb)
      ensures m != 0 ==> Ready() && Grants(old(cs), cs, m - 8, nb) && PayloadKept(old(mem), mem, Lives(old(cs)))
    {
      hide *;
      TopBounds(H());
      BinsParts(mem, smallmap, small, treemap, trees, binned);
      UnmarkedWhenFresh(H(), smallmap, small, treemap, trees);
      SmallBitsMean(smallmap, idx);
      AllSeen(mem, smallmap, small, treemap, trees, binned, nb);
      ghost var h, seen := H(), smallmap;
      if !IsZero(smallbits) {
        m := SmallNext(idx, nb, smallbits);
        DvAfterBinned(h, nb, m - 8, dv, dvsize);
        NextPlaced(h, seen, smallbits, nb, m - 8);
      } else if !IsZero(treemap) {
        m := TmallocSmall(nb);
        DvAfterBinned(h, nb, m - 8, dv, dvsize);
        TreePlaced(h, seen, smallbits, nb, m - 8);
      } else {
        NoneFitsSmall(H(), mem, smallmap, small, treemap, trees, nb);
        m := 0;
      }
    }

    /** The large-request half of dlmalloc: the best tree chunk, unless dv fits as well. */
    method LargeRequest(nb: int) returns (m: int)
      requires Valid() && 256 <= nb < TWO32 && nb % 8 == 0
      modifies this`mem, this`smallmap, this`treemap, this`dv, this`dvsize, this`top, this`topsize
      modifies this`small, this`trees, this`binned, this`cs
      ensures Valid() && top == old(top) && topsize == old(topsize)
      ensures m == 0 ==> H() == old(H()) && LeftToRest(H(), nb)
      ensures m != 0 ==>
                Placed(old(H()), nb, m - 8) && DvAfter(old(H()), nb, m - 8, dv, dvsize) &&
                Tight(old(cs), cs, m - 8, nb)
      ensures m != 0 ==> Ready() && Grants(old(cs), cs, m - 8, nb) && PayloadKept(old(mem), mem, Lives(old(cs)))
    {
      hide *;
      TopBounds(H());
      LargePlaces(H(), nb);
      UnmarkedWhenFresh(H(), smallmap, small, treemap, trees);
      if !IsZero(treemap) {
        ghost var h := H();
        m := TmallocLarge(nb);
        DvAfterIs(h, nb, m - 8, dv, dvsize);
        if m != 0 {
          return m;
        }
      }
      BinsParts(mem, smallmap, small, treemap, trees, binned);
      NoneFitsLarge(H(), mem, treemap, trees, nb);
      m := 0;
    }

    /** The end of dlmalloc: dv, top, or more memory from the system. */
    method FromRest(nb: int) returns (r: Reply)
      requires Valid() && 16 <= nb < TWO32 && (nb % 8 == 0 || nb == 0xFFFF_FFFF)
      requires LeftToRest(H(), nb)
      modifies this, heap
      ensures r.Mem? ==> Valid()
      ensures r == Mem(0) ==> H() == old(H()) && 0x7FFF_E010 <= nb
      ensures r.Mem? && r.ptr != 0 ==>
                nb != 0xFFFF_FFFF && Grants(old(cs), cs, r.ptr - 8, nb) &&
                PayloadKept(old(mem), mem, Lives(old(cs)))
      ensures r.Mem? && r.ptr != 0 ==>
                Placed(old(H()), nb, r.ptr - 8) &&
                DvAfter(old(H()), nb, r.ptr - 8, dv, dvsize) && Tight(old(cs), cs, r.ptr - 8, nb)
      ensures r == Halted || heap.kernelHeapTop != old(heap.kernelHeapTop) ==> NoRoom(old(H()), nb)
      ensures r == Halted ==> nb != 0xFFFF_FFFF && !old(heap.Serves(Demand(nb, contiguous, top, topsize)))
      ensures r.Mem? ==> GrewBy(old(heap.kernelHeapTop), heap.kernelHeapTop,
                Demand(nb, old(contiguous), old(top), old(topsize)))
      ensures r.Mem? && heap.kernelHeapTop != old(heap.kernelHeapTop) ==>
                LeastPages(heap.kernelHeapTop - old(heap.kernelHeapTop),
                  nb + 48 - if old(contiguous && top != 0) then old(topsize) else 0)
      ensures r.Mem? ==>
                trimCheck == if heap.kernelHeapTop != old(heap.kernelHeapTop) then TRIM_THRESHOLD else old(trimCheck)
    {
      hide *;
      HeapConstants();
      TopBounds(H());
      DvOrNone(H());
      RestParts(H(), nb);
      ghost var h := H();
      assert h.binned == map[] || HeapInv(h);
      if nb <= dvsize {
        var m := UseDv(nb);
        PlacedInRest(h, nb, m - 8);
        DvAfterIs(h, nb, m - 8, dv, dvsize);
        return Mem(m);
      } else if nb < topsize {
        var m := UseTop(nb);
        PlacedInRest(h, nb, m - 8);
        DvAfterIs(h, nb, m - 8, dv, dvsize);
        TopPositive(H());
        return Mem(m);
      }
      NothingFits(H(), nb);
      NullIsHuge(nb, contiguous, top, topsize);
      r := SysAlloc(nb);
      if r.Mem? && r.ptr != 0 {
        PlacedInRest(h, nb, r.ptr - 8);
        DvAfterIs(h, nb, r.ptr - 8, dv, dvsize);
      }
    }

    /** dlmalloc. Null needs a request of almost 2 GB; the heap grows, or the kernel halts, only when
        no free chunk has room. */
    method Dlmalloc(bytes: int) returns (r: Reply)
      requires Valid() && 0 <= bytes < TWO32
      modifies this, heap
      ensures r.Mem? ==> Valid()
      ensures r == Mem(0) ==> H() == old(H()) && 0x7FFF_E000 <= bytes
      ensures r.Mem? && r.ptr != 0 ==> bytes < MAX_REQUEST
      ensures r.Mem? && r.ptr != 0 ==>
                Grants(old(cs), cs, r.ptr - 8, Request2Size(bytes)) &&
                PayloadKept(old(mem), mem, Lives(old(cs)))
      ensures r.Mem? && r.ptr != 0 ==> Placed(old(H()), Request2Size(bytes), r.ptr - 8)
      ensures r.Mem? && r.ptr != 0 ==> Tight(old(cs), cs, r.ptr - 8, Request2Size(bytes))
      ensures r.Mem? && r.ptr != 0 ==> DvAfter(old(H()), Request2Size(bytes), r.ptr - 8, dv, dvsize)
      ensures r == Halted || heap.kernelHeapTop != old(heap.kernelHeapTop) ==>
                bytes < MAX_REQUEST && NoRoom(old(H()), Request2Size(bytes))
      ensures r == Halted ==> !old(heap.Serves(Demand(Request2Size(bytes), contiguous, top, topsize)))
      ensures r.Mem? ==> GrewBy(old(heap.kernelHeapTop), heap.kernelHeapTop,
                Demand(Request2Size(bytes), old(contiguous), old(top), old(topsize)))
      ensures r.Mem? && heap.kernelHeapTop != old(heap.kernelHeapTop) ==>
                LeastPages(heap.kernelHeapTop - old(heap.kernelHeapTop),
                  Request2Size(bytes) + 48 - if old(contiguous && top != 0) then old(topsize) else 0)
      ensures r.Mem? ==>
                trimCheck == if heap.kernelHeapTop != old(heap.kernelHeapTop) then TRIM_THRESHOLD else old(trimCheck)
    {
      hide *;
      RequestConstants(bytes);
      var nb: int;
      if bytes <= MAX_SMALL_REQUEST {
        RequestSizes(bytes);
        nb := if bytes < MIN_REQUEST then MIN_CHUNK_SIZE else PadRequest(bytes);
        var m := SmallRequest(nb);
        if m != 0 {
          return Mem(m);
        }
      } else if bytes >= MAX_REQUEST {
        nb := 0xFFFF_FFFF;
        DvOrNone(H());
        NoneBinnedHuge(H(), mem, smallmap, small, treemap, trees);
      } else {
        RequestSizes(bytes);
        nb := PadRequest(bytes);
        var m := LargeRequest(nb);
        if m != 0 {
          return Mem(m);
        }
      }
      r := FromRest(nb);
    }

    // ------------------------------------------------------------------ trim and free

    /** sys_trim: the surplus of top goes back by whole pages. */
    method SysTrim(pad0: int) returns (trimmed: bool)
      requires Ready() && Booked() && 0 <= pad0 < 0xFFFF_FFC0
      modifies this`mem, this`topsize, this`top, this`segSize, this`footprint, this`trimCheck, heap
      ensures Valid() && top == old(top) && PayloadKept(old(mem), mem, Lives(cs))
      ensures var pad := pad0 + TOP_FOOT_SIZE;
              if old(topsize) > pad then pad < topsize <= pad + PAGE_SIZE else topsize == old(topsize)
      ensures trimmed <==> topsize != old(topsize)
      ensures trimCheck == if trimmed then TRIM_THRESHOLD else if topsize > old(trimCheck) then 0xFFFF_FFFF
                else old(trimCheck)
      ensures heap.kernelHeapTop <= old(heap.kernelHeapTop)
    {
      hide *;
      HeapConstants();
      TopPositive(H());
      TopBounds(H());
      KeptReflexive(mem, Lives(cs));
      var released := 0;
      var pad := pad0 + TOP_FOOT_SIZE;
      if topsize > pad {
        var extra := Extra(topsize, pad);
        ExtraLeaves(topsize, pad);
        released := ReleasePages(extra);
        if released != 0 {
          segSize := segSize - released;
          footprint := footprint - released;
          ShrinkTop(released);
        }
      }
      if released == 0 && topsize > trimCheck {
        trimCheck := 0xFFFF_FFFF;
      }
      trimmed := released != 0;
    }

    method ShrinkTop(released: int)
      requires Ready() && 0 <= released < topsize && released % 4096 == 0
      modifies this`mem, this`topsize, this`top, this`trimCheck
      ensures Ready() && top == old(top) && topsize == old(topsize) - released
      ensures trimCheck == TRIM_THRESHOLD
      ensures PayloadKept(old(mem), mem, Lives(cs))
    {
      hide *;
      ShrinkTopKeeps(H(), released);
      TagsOnlyKeeps(mem, InitTop(mem, top, topsize - released), smallmap, small, treemap, trees, binned);
      StoreTop(top, topsize - released);
    }

    /** The calls of MORECORE in sys_trim, with the check that nobody else moved the break. */
    method ReleasePages(extra: int) returns (released: int)
      requires Booked() && 0 <= extra && extra % PAGE_SIZE == 0 && heap.kernelHeapTop - extra >= 0x2000_0000
      modifies this`mem, heap
      ensures released == extra && mem == old(mem)
      ensures heap.Valid() && heap.kernelHeapTop == old(heap.kernelHeapTop) - extra
    {
      CanShrink(heap, extra);
      released := 0;
      var oldBr := heap.kernelHeapTop;
      if oldBr == HEAP_BASE + segSize {
        var relBr := MoreCore(-extra);
        var newBr := heap.kernelHeapTop;
        if relBr.At? && newBr < oldBr {
          released := oldBr - newBr;
        }
      }
    }

    /** dlfree: the chunk is disposed of; when it joins a large enough top, top is trimmed. */
    method Dlfree(m: int)
      requires Valid() && (m == 0 || (m - 8 in cs && cs[m - 8].live))
      modifies this, heap
      ensures Valid() && (m != 0 ==> Ready())
      ensures Lives(cs) == if m == 0 then Lives(old(cs)) else Lives(old(cs)) - {m - 8}
      ensures PayloadKept(old(mem), mem, Lives(cs))
      ensures m != 0 ==> DvCovers(old(dv), old(dvsize), dv, dvsize, top)
      ensures m != 0 && top != old(top) ==> TrimmedFrom(old(top + topsize) - top, topsize, old(trimCheck))
      ensures m == 0 || top == old(top) ==>
                top + topsize == old(top + topsize) &&
                heap.kernelHeapTop == old(heap.kernelHeapTop)
      ensures trimCheck ==
                if m == 0 || top == old(top) || old(top + topsize) - top <= old(trimCheck) then old(trimCheck)
                else if top + topsize < old(top + topsize) then TRIM_THRESHOLD else 0xFFFF_FFFF
      ensures heap.kernelHeapTop <= old(heap.kernelHeapTop)
    {
      hide *;
      KeptReflexive(mem, Lives(cs));
      HeapConstants();
      if m != 0 {
        var p := m - 8;
        ChunkInUse(H(), p);
        var psize := SizeOf(Head(mem, p));
        var top0 := top;
        DisposeChunk(p, psize);
        TopPositive(H());
        ghost var grown, threshold := topsize, trimCheck;
        TrimmedIs(grown, topsize, threshold);
        if top != top0 && topsize > trimCheck {
          ghost var m1 := mem;
          var trimmed := SysTrim(0);
          KeptTransitive(old(mem), m1, mem, Lives(cs), Lives(cs));
          TrimmedIs(grown, topsize, threshold);
        }
      }
    }

    /** Frees one after another, as a caller might do instead of a bulk free: a run of frees. */
    method FreeEach(ps: seq<int>) returns (ghost hs: seq<Heap>)
      requires Ready() && Booked() && (forall i | 0 <= i < |ps| :: ps[i] in cs && cs[ps[i]].live)
      requires forall i, j | 0 <= i < j < |ps| :: ps[i] != ps[j]
      modifies this, heap
      ensures Ready() && Booked() && FreeRun(hs, ps) && hs[0] == old(H()) && hs[|ps|] == H()
      ensures PayloadKept(old(mem), mem, Lives(cs))
    {
      hide *;
      forall j | 0 <= j < |ps| ensures ps[j] in Lives(cs) {
        LiveIs(cs, ps[j]);
      }
      hs := [H()];
      FreeRunStart(H());
      KeptReflexive(mem, Lives(cs));
      TopPositive(H());
      assert ps[..0] == [];
      var i := 0;
      while i < |ps|
        invariant 0 <= i <= |ps| && Ready() && Booked() && top != 0
        invariant FreeRun(hs, ps[..i]) && |hs| == i + 1 && hs[0] == old(H()) && hs[i] == H()
        invariant forall j | i <= j < |ps| :: ps[j] in Lives(cs)
        invariant PayloadKept(old(mem), mem, Lives(cs))
      {
        ghost var m0, h0 := mem, H();
        NullIsFree(h0, ps[i]);
        Dlfree(ps[i] + 8);
        KeptTransitive(old(mem), m0, mem, Lives(cs), Lives(h0.cs));
        TopPositive(H());
        MakeFreed(h0, H(), ps[i]);
        FreeRunStep(hs, ps[..i], H(), ps[i]);
        assert ps[..i + 1] == ps[..i] + [ps[i]];
        hs := hs + [H()];
        i := i + 1;
      }
      assert ps[..|ps|] == ps;
    }

    // -------------------------------------------------------------------- bulk free

    /** internal_bulk_free: every pointer of the array is freed and cleared; a chunk whose successor
        comes next in the array is first joined with it. */
    method InternalBulkFree(a: array<int>)
      requires Valid() && DistinctPtrs(a[..]) && AllInUse(cs, a[..])
      modifies a, this, heap
      ensures Valid() && forall i | 0 <= i < a.Length :: a[i] == 0
      ensures Lives(cs) == Lives(old(cs)) - Ptrs(old(a[..]))
      ensures PayloadKept(old(mem), mem, Lives(cs))
      ensures old(top) != 0 ==> Ready() && TrimmedFrom(old(top + topsize) - top, topsize, old(trimCheck))
      ensures old(top) != 0 ==>
                trimCheck ==
                if old(top + topsize) - top <= old(trimCheck) then old(trimCheck)
                else if top + topsize < old(top + topsize) then TRIM_THRESHOLD else 0xFFFF_FFFF
      ensures heap.kernelHeapTop <= old(heap.kernelHeapTop)
    {
      hide *;
      ghost var orig := a[..];
      KeptReflexive(mem, Lives(cs) - Ptrs(orig));
      HeapConstants();
      TopBounds(H());
      if top != 0 { TopPositive(H()); }
      var i := 0;
      assert a[0..] == a[..];
      while i < a.Length
        invariant 0 <= i <= a.Length
        invariant forall j | 0 <= j < i :: a[j] == 0
        invariant Valid() && DistinctPtrs(a[i..]) && AllInUse(cs, a[i..])
        invariant Lives(cs) - Ptrs(a[i..]) == Lives(old(cs)) - Ptrs(orig)
        invariant PayloadKept(old(mem), mem, Lives(cs) - Ptrs(a[i..]))
        invariant heap.kernelHeapTop == old(heap.kernelHeapTop) && trimCheck == old(trimCheck)
        invariant segSize == old(segSize)
      {
        ghost var rest, m0, cs0 := a[i..], mem, cs;
        FreeOne(a, i);
        BulkStep(rest, a[i + 1..], cs0, cs, old(mem), m0, mem);
        i := i + 1;
      }
      EmptyPtrs(a[a.Length..]);
      assert Lives(cs) - Ptrs(a[a.Length..]) == Lives(cs);
      ghost var m1, grown := mem, topsize;
      TrimmedIs(grown, topsize, trimCheck);
      if topsize > trimCheck && top != 0 {
        ghost var threshold := trimCheck;
        var trimmed := SysTrim(0);
        TrimmedIs(grown, topsize, threshold);
        KeptTransitive(old(mem), m1, mem, Lives(cs), Lives(cs));
      }
    }

    /** One turn of its loop. */
    method FreeOne(a: array<int>, i: nat)
      requires i < a.Length && Valid() && DistinctPtrs(a[i..]) && AllInUse(cs, a[i..])
      modifies a, this`mem, this`smallmap, this`treemap, this`dv, this`dvsize, this`top, this`topsize
      modifies this`small, this`trees, this`binned, this`cs
      ensures a[i] == 0 && forall j | 0 <= j < i :: a[j] == old(a[j])
      ensures Valid() && BulkStepped(old(a[i..]), a[i + 1..], old(cs), cs)
      ensures PayloadKept(old(mem), mem, Lives(cs) - Ptrs(old(a[i..])))
    {
      hide *;
      KeptReflexive(mem, Lives(cs) - Ptrs(a[i..]));
      var m := a[i];
      ghost var rest := a[i..];
      SkipNull(rest, a[i + 1..], cs);
      if m != 0 {
        FirstInUse(rest, cs);
        var p := m - 8;
        ChunkInUse(H(), p);
        var psize := SizeOf(Head(mem, p));
        a[i] := 0;
        var b := i + 1;
        var next := p + psize;
        if b < a.Length && a[b] == next + 8 {
          NextInUse(rest, cs, H(), p, next);
          var newsize := SizeOf(Head(mem, next)) + psize;
          JoinInUse(p, newsize);
          a[b] := p + 8;
          SteppedJoin(rest, a[i + 1..], old(cs), cs, p, next, newsize);
          KeptFewer(old(mem), mem, Lives(old(cs)), Lives(cs) - Ptrs(rest));
        } else {
          DisposeChunk(p, psize);
          TopPositive(H());
          SteppedFree(rest, a[i + 1..], old(cs), cs, p);
          KeptFewer(old(mem), mem, Lives(cs), Lives(cs) - Ptrs(rest));
        }
      }
    }

    /** set_inuse over two adjacent chunks in use. */
    method JoinInUse(p: int, newsize: int)
      requires Ready() && p in cs && cs[p].live && End(cs, p) in cs && cs[End(cs, p)].live
      requires newsize == cs[p].size + cs[End(cs, p)].size
      modifies this`mem, this`cs
      ensures Ready() && Lives(cs) == (Lives(old(cs)) - {old(End(cs, p))})[p := newsize]
      ensures p in cs && cs[p].live
      ensures PayloadKept(old(mem), mem, Lives(old(cs)))
    {
      hide *;
      MergeLive(H(), p);
      TagsOnlyKeeps(mem, SetInuse(mem, p, newsize), smallmap, small, treemap, trees, binned);
      StoreSetInuse(p, newsize);
      cs := JoinLive(cs, p);
    }

    /** set_inuse. */
    method StoreSetInuse(p: int, s: int)
      modifies this`mem
      ensures mem == SetInuse(old(mem), p, s)
    {
      mem := mem[p + 4 := Head(mem, p) % 2 + s + 2];
      mem := SetPinuse(mem, p + s);
    }

    // ---------------------------------------------------------------------- realloc

    /** Chunk p, in use, cut at nb; the remainder is disposed of. */
    method TrimTail(p: int, nb: int, rsize: int)
      requires Ready() && p in cs && cs[p].live && cs[p].size == nb + rsize
      requires 16 <= nb && nb % 8 == 0 && 16 <= rsize
      modifies this`mem, this`smallmap, this`treemap, this`dv, this`dvsize, this`top, this`topsize
      modifies this`small, this`trees, this`binned, this`cs
      ensures Ready() && Lives(cs) == Lives(old(cs))[p := nb] && top + topsize == old(top + topsize)
      ensures ContentsKept(old(mem), mem, Lives(old(cs)), p, nb)
    {
      hide *;
      ghost var h := H();
      LiveSize(cs, p);
      var r := p + nb;
      CutReady(h, p, nb, rsize);
      CutLive(h, SetInuse(SetInuse(mem, p, nb), r, rsize), p, nb);
      TagsOnlyKeeps(mem, SetInuse(SetInuse(mem, p, nb), r, rsize), smallmap, small, treemap, trees, binned);
      StoreSetInuse(p, nb);
      StoreSetInuse(r, rsize);
      cs := Split(cs, p, nb);
      ghost var m1 := mem;
      MakeContents(h.mem, m1, Lives(h.cs), p, nb);
      DisposeChunk(r, rsize);
      ContentsCut(h.mem, m1, mem, Lives(h.cs), p, nb);
    }

    /** set_inuse over p and the free chunk behind it, which is in no bin. */
    method GrowOver(p: int, newsize: int)
      requires BinsValid() && p in cs && cs[p].live && End(cs, p) in cs && Loose(H(), End(cs, p))
      requires newsize == cs[p].size + cs[End(cs, p)].size
      modifies this`mem, this`cs
      ensures Ready() && Lives(cs) == Lives(old(cs))[p := newsize]
      ensures PayloadKept(old(mem), mem, Lives(old(cs)))
    {
      hide *;
      GrowLoose(H(), p);
      GrownIs(H(), p);
      TagsOnlyKeeps(mem, Grown(H(), p).mem, smallmap, small, treemap, trees, binned);
      StoreSetInuse(p, newsize);
      cs := JoinNext(cs, p);
    }

    /** The same, but only up to nb: the remainder is disposed of. */
    method GrowPartly(p: int, nb: int, rsize: int)
      requires BinsValid() && p in cs && cs[p].live && End(cs, p) in cs && Loose(H(), End(cs, p))
      requires cs[p].size < nb && nb % 8 == 0 && 16 <= nb && 16 <= rsize == cs[p].size + cs[End(cs, p)].size - nb
      modifies this`mem, this`smallmap, this`treemap, this`dv, this`dvsize, this`top, this`topsize
      modifies this`small, this`trees, this`binned, this`cs
      ensures Ready() && Lives(cs) == Lives(old(cs))[p := nb] && top + topsize == old(top + topsize)
      ensures PayloadKept(old(mem), mem, Lives(old(cs)))
    {
      hide *;
      ghost var h := H();
      LiveSize(cs, p);
      GrowCut(h, p, nb);
      GrownCutIs(h, p, nb);
      TagsOnlyKeeps(mem, GrownCut(h, p, nb).mem, smallmap, small, treemap, trees, binned);
      var r := p + nb;
      StoreSetInuse(p, nb);
      StoreSetInuse(r, rsize);
      cs := Split(JoinNext(cs, p), p, nb);
      ghost var m1 := mem;
      DisposeChunk(r, rsize);
      KeptLarger(h.mem, m1, mem, Lives(h.cs), p, nb);
    }

    /** Extending p into top. */
    method GrowFromTop(p: int, nb: int, newsize: int)
      requires Ready() && p in cs && cs[p].live && End(cs, p) == top && newsize == cs[p].size + topsize
      requires 16 <= cs[p].size <= nb < newsize && nb % 8 == 0
      modifies this`mem, this`top, this`topsize, this`cs
      ensures Ready() && Lives(cs) == Lives(old(cs))[p := nb] && top + topsize == old(top + topsize)
      ensures PayloadKept(old(mem), mem, Lives(old(cs)))
    {
      hide *;
      ghost var h := H();
      var newtopsize := newsize - nb;
      var newtop := p + nb;
      TopCutReady(h, p, nb, newtopsize);
      GrowIntoTop(h, SetInuse(mem, p, nb)[newtop + 4 := newtopsize + 1], p, nb);
      GrownTopIs(h, SetInuse(mem, p, nb)[newtop + 4 := newtopsize + 1], p, nb);
      TagsOnlyKeeps(mem, SetInuse(mem, p, nb)[newtop + 4 := newtopsize + 1], smallmap, small, treemap, trees, binned);
      StoreSetInuse(p, nb);
      mem := mem[newtop + 4 := newtopsize + 1];
      top := newtop;
      topsize := newtopsize;
      cs := cs[p := cs[p].(size := nb)];
    }

    /** Extending p into dv, which is split. */
    method GrowFromDv(p: int, nb: int, dsize: int)
      requires Ready() && p in cs && cs[p].live && End(cs, p) == dv && dvsize != 0 && dv in cs && cs[dv].size == dvsize
      requires cs[p].size < nb && nb % 8 == 0 && 16 <= nb && 16 <= dsize == cs[p].size + dvsize - nb
      modifies this`mem, this`dv, this`dvsize, this`cs
      ensures Ready() && Lives(cs) == Lives(old(cs))[p := nb] && dv == p + nb && dvsize == dsize
      ensures PayloadKept(old(mem), mem, Lives(old(cs)))
    {
      hide *;
      ghost var h := H();
      SplitDvFor(h, p, nb);
      DvSplitIs(h, p, nb);
      DvBehind(cs, p, dv, nb, dsize);
      TagsOnlyKeeps(mem, DvSplit(h, p, nb).mem, smallmap, small, treemap, trees, binned);
      var r := p + nb;
      var n := r + dsize;
      StoreSetInuse(p, nb);
      mem := SetFree(mem, r, dsize);
      mem := ClearPinuse(mem, n);
      dvsize := dsize;
      dv := r;
      cs := Release(Split(JoinNext(cs, p), p, nb), r);
    }

    /** try_realloc_chunk: resizes in place exactly when there is room. */
    method TryReallocChunk(p: int, nb: int) returns (newp: int)
      requires Ready() && p in cs && cs[p].live && 16 <= nb < TWO32 && nb % 8 == 0
      modifies this`mem, this`smallmap, this`treemap, this`dv, this`dvsize, this`top, this`topsize
      modifies this`small, this`trees, this`binned, this`cs
      ensures Ready() && top + topsize == old(top + topsize)
      ensures newp == if old(Extends(H(), p, nb)) then p else 0
      ensures newp == 0 ==> H() == old(H())
      ensures newp != 0 ==> Resized(old(cs), cs, p, nb) && ContentsKept(old(mem), mem, Lives(old(cs)), p, nb)
      ensures newp != 0 ==> Fitted(old(cs), cs, p, nb)
      ensures newp != 0 && old(cs[p].size) < nb && old(p + cs[p].size == dv) ==>
                var rest := old(cs[p].size + dvsize) - nb;
                if rest >= 16 then dv == p + nb && dvsize == rest else dv == 0 && dvsize == 0
    {
      hide *;
      ghost var h, lives := H(), Lives(cs);
      var oldsize := SizeOf(Head(mem, p));
      var next := p + oldsize;
      HeadOfLive(h, p);
      ReallocTells(h, p, next);
      ExtendsMeans(h, p, nb);
      KeptReflexive(mem, lives);
      newp := 0;
      if oldsize >= nb {
        var rsize := oldsize - nb;
        if rsize >= 16 {
          TrimTail(p, nb, rsize);
          MakeResized(h.cs, cs, p, nb, nb);
        } else {
          SameResized(h.cs, p, nb);
          ContentsWhole(h.mem, mem, lives, p, nb);
        }
        newp := p;
        FittedIs(h.cs, cs, p, nb);
      } else if next == top {
        if oldsize + topsize > nb {
          var newsize := oldsize + topsize;
          GrowFromTop(p, nb, newsize);
          MakeResized(h.cs, cs, p, nb, nb);
          ContentsWhole(h.mem, mem, lives, p, nb);
          newp := p;
          FittedIs(h.cs, cs, p, nb);
        }
      } else if next == dv {
        var dvs := dvsize;
        if oldsize + dvs >= nb {
          var dsize := oldsize + dvs - nb;
          if dsize >= 16 {
            GrowFromDv(p, nb, dsize);
            MakeResized(h.cs, cs, p, nb, nb);
          } else {
            var newsize := oldsize + dvs;
            DvLoose(H());
            dvsize := 0;
            dv := 0;
            GrowOver(p, newsize);
            MakeResized(h.cs, cs, p, newsize, nb);
          }
          ContentsWhole(h.mem, mem, lives, p, nb);
          newp := p;
          FittedIs(h.cs, cs, p, nb);
        }
      } else if !Cinuse(Head(mem, next)) {
        var nextsize := SizeOf(Head(mem, next));
        if oldsize + nextsize >= nb {
          var rsize := oldsize + nextsize - nb;
          UnlinkChunk(next, nextsize);
          Unfile(h, mem, next);
          ghost var m1 := mem;
          if rsize < 16 {
            var newsize := oldsize + nextsize;
            GrowOver(p, newsize);
            MakeResized(h.cs, cs, p, newsize, nb);
          } else {
            GrowPartly(p, nb, rsize);
            MakeResized(h.cs, cs, p, nb, nb);
          }
          ContentsAfter(h.mem, m1, mem, lives, p, nb);
          newp := p;
          FittedIs(h.cs, cs, p, nb);
        }
      }
    }

    /** memcpy. */
    method CopyBytes(dst: int, src: int, n: int)
      requires dst % 4 == 0 && (src + n <= dst || dst + n <= src)
      modifies this`mem
      ensures SameBytes(old(mem), src, mem, dst, n)
      ensures forall a | !(dst <= a < dst + n) :: Rd(mem, a) == Rd(old(mem), a)
    {
      var i := 0;
      ghost var m0 := mem;
      hide *;
      NoBytes(m0, src, dst);
      while i < n
        invariant 0 <= i && (i <= n || i == 0) && SameBytes(m0, src, mem, dst, i)
        invariant forall b | !(dst <= b < dst + i) :: RdByte(mem, b) == RdByte(m0, b)
        invariant forall a | !(dst <= a < dst + i) :: Rd(mem, a) == Rd(m0, a)
      {
        CopyStep(m0, mem, dst, src, i, n);
        mem := StoreByte(mem, dst + i, RdByte(mem, src + i));
        i := i + 1;
      }
      FewBytes(m0, src, mem, dst, i, n);
    }

    /** The user data moved from the old block to a new one. */
    method CopyBlock(p: int, q: int, n: int)
      requires Ready() && q in cs && cs[q].live && q % 8 == 0 && n <= cs[q].size - 4
      requires p + 8 + n <= q + 8 || q + 8 + n <= p + 8
      modifies this`mem
      ensures Ready() && SameBytes(old(mem), p + 8, mem, q + 8, n)
      ensures PayloadKept(old(mem), mem, Lives(cs) - {q})
    {
      hide *;
      ghost var h := H();
      var dst := q + 8;
      EightIsFour(q);
      CopyBytes(dst, p + 8, n);
      MakePayload(h.mem, mem, q, cs[q].size, n);
      UserWrites(h, mem, q);
      TagsOnlyKeeps(h.mem, mem, smallmap, small, treemap, trees, binned);
    }

    /** dlrealloc: null leaves the old block as it was; otherwise its contents are kept, as far as
        both sizes allow. */
    method Dlrealloc(oldmem: int, bytes: int) returns (r: Reply)
      requires Valid() && 0 <= bytes < TWO32
      requires oldmem == 0 || (oldmem - 8 in cs && cs[oldmem - 8].live)
      modifies this, heap
      ensures r.Mem? ==> Valid()
      ensures r == Mem(0) ==> H() == old(H()) && 0x7FFF_E000 <= bytes
      ensures oldmem != 0 && bytes < MAX_REQUEST && old(Extends(H(), oldmem - 8, Request2Size(bytes))) ==>
                r == Mem(oldmem)
      ensures r.Mem? && r.ptr != 0 && (oldmem == 0 || !old(Extends(H(), oldmem - 8, Request2Size(bytes)))) ==>
                Placed(old(H()), Request2Size(bytes), r.ptr - 8)
      ensures r == Halted ==> bytes < MAX_REQUEST && NoRoom(old(H()), Request2Size(bytes))
      ensures r.Mem? && r.ptr != 0 && oldmem == 0 ==>
                Grants(old(cs), cs, r.ptr - 8, Request2Size(bytes)) && PayloadKept(old(mem), mem, Lives(old(cs)))
      ensures r.Mem? && r.ptr != 0 && oldmem != 0 ==>
                && Moved(old(cs), cs, oldmem - 8, r.ptr - 8, Request2Size(bytes))
                && SameBytes(old(mem), oldmem, mem, r.ptr,
                  if old(cs[oldmem - 8].size) - 4 < bytes then old(cs[oldmem - 8].size) - 4 else bytes)
                && PayloadKept(old(mem), mem, Lives(old(cs)) - {oldmem - 8})
    {
      hide *;
      RequestConstants(bytes);
      r := Mem(0);
      if oldmem == 0 {
        r := Dlmalloc(bytes);
      } else if bytes < MAX_REQUEST {
        RequestSizes(bytes);
        var nb := Request2Size(bytes);
        var oldp := oldmem - 8;
        ghost var h := H();
        ChunkInUse(h, oldp);
        LiveSize(cs, oldp);
        KeptIs(cs[oldp].size, bytes);
        var newp := TryReallocChunk(oldp, nb);
        TopPositive(H());
        if newp != 0 {
          ResizedMoved(h.cs, cs, oldp, nb);
          ResizedBytes(h, mem, oldp, nb, bytes);
          r := Mem(newp + 8);
        } else {
          r := Dlmalloc(bytes);
          if r.Mem? && r.ptr != 0 {
            MoveBlock(h, oldp, r.ptr - 8, nb, bytes);
          }
        }
      }
    }

    method MoveBlock(ghost h: Heap, p: int, q: int, nb: int, bytes: int)
      requires Valid() && p in Lives(h.cs) && Grants(h.cs, cs, q, nb) && PayloadKept(h.mem, mem, Lives(h.cs))
      requires bytes + 4 <= nb
      modifies this, heap
      ensures Valid() && Moved(h.cs, cs, p, q, nb)
      ensures SameBytes(h.mem, p + 8, mem, q + 8, Kept(Lives(h.cs)[p], bytes))
      ensures PayloadKept(h.mem, mem, Lives(h.cs) - {p})
    {
      hide *;
      GrantReady(h.cs, H(), q, nb);
      ghost var h1 := H();
      AfterGrant(h, h1, p, q, nb, bytes);
      KeptIs(h1.cs[p].size, bytes);
      var oc := SizeOf(Head(mem, p)) - 4;
      var n := if oc < bytes then oc else bytes;
      CopyBlock(p, q, n);
      ghost var m2 := mem;
      Dlfree(p + 8);
      MakeMoved(h.cs, h1.cs, cs, p, q, nb);
      BytesOfPayload(h.mem, h1.mem, Lives(h.cs), p, n);
      BytesOfPayload(m2, mem, Lives(cs), q, n);
      SameBytesTransitive(h.mem, p + 8, h1.mem, p + 8, m2, q + 8, n);
      SameBytesTransitive(h.mem, p + 8, m2, q + 8, mem, q + 8, n);
      GrantParts(h.cs, h1.cs, q, nb);
      LivesMoved(Lives(h.cs), Lives(h1.cs), Lives(cs), p, q, h1.cs[q].size);
      KeptMoved(h.mem, h1.mem, m2, mem, Lives(h.cs), Lives(cs), p, q, h1.cs[q].size);
    }

    // --------------------------------------------------------------------- memalign

    /** Chunk p, in use, cut; the first part is disposed of. */
    method TrimFront(p: int, leadsize: int, newsize: int)
      requires Ready() && p in cs && cs[p].live && cs[p].size == leadsize + newsize
      requires 16 <= leadsize && leadsize % 8 == 0 && 16 <= newsize
      modifies this`mem, this`smallmap, this`treemap, this`dv, this`dvsize, this`top, this`topsize
      modifies this`small, this`trees, this`binned, this`cs
      ensures Ready() && Lives(cs) == (Lives(old(cs)) - {p})[p + leadsize := newsize]
      ensures top + topsize == old(top + topsize)
      ensures p + leadsize !in Lives(old(cs))
      ensures PayloadKept(old(mem), mem, Lives(old(cs)) - {p})
    {
      hide *;
      ghost var h := H();
      LiveSize(cs, p);
      var newp := p + leadsize;
      CutReady(h, p, leadsize, newsize);
      ghost var m1 := SetInuse(SetInuse(mem, newp, newsize), p, leadsize);
      CutLive(h, m1, p, leadsize);
      TagsOnlyKeeps(mem, m1, smallmap, small, treemap, trees, binned);
      StoreSetInuse(newp, newsize);
      StoreSetInuse(p, leadsize);
      cs := Split(cs, p, leadsize);
      LiveSize(cs, newp);
      FrontLives(Lives(h.cs), Lives(cs), p, newp, leadsize, newsize);
      DisposeChunk(p, leadsize);
      KeptFront(h.mem, m1, mem, Lives(h.cs), p, newp, newsize);
    }

    /** The rounding loop: the alignment becomes a power of two. */
    method RoundAlignment(alignment0: int) returns (alignment: int)
      requires 0 <= alignment0 <= 0x8000_0000
      ensures RoundedUp(alignment0, alignment)
    {
      Power32();
      alignment := if alignment0 < MIN_CHUNK_SIZE then MIN_CHUNK_SIZE else alignment0;
      PowerTest(alignment);
      if BitAnd(alignment, alignment - 1) != 0 {
        var a := 16;
        while a < alignment
          invariant 16 <= a <= 0x8000_0000 && PowerOfTwo(a) && (16 < a ==> a < 2 * alignment)
          decreases alignment - a
        {
          DoublePower(a);
          NextPower(a, 0x8000_0000);
          a := a * 2 % 0x1_0000_0000;
        }
        alignment := a;
      }
    }

    /** internal_memalign. */
    method InternalMemalign(alignment0: int, bytes: int) returns (r: Reply)
      requires Valid() && 0 <= alignment0 <= 0x8000_0000 && 0 <= bytes < TWO32
      modifies this, heap
      ensures r.Mem? ==> Valid()
      ensures r == Mem(0) ==>
                H() == old(H()) &&
                exists a :: RoundedUp(alignment0, a) &&
                  (bytes >= MAX_REQUEST - a || Request2Size(bytes) + a + 12 >= 0x7FFF_E000)
      ensures r == Halted ==>
                exists a :: RoundedUp(alignment0, a) && bytes < MAX_REQUEST - a &&
                  NoRoom(old(H()), Request2Size(Request2Size(bytes) + a + 12))
      ensures r.Mem? && r.ptr != 0 ==> bytes < MAX_REQUEST && (exists a :: RoundedUp(alignment0, a) && r.ptr % a == 0)
      ensures r.Mem? && r.ptr != 0 ==>
                Grants(old(cs), cs, r.ptr - 8, Request2Size(bytes)) ||
                GrantsOneMore(old(cs), cs, r.ptr - 8, Request2Size(bytes))
      ensures r.Mem? && r.ptr != 0 ==> PayloadKept(old(mem), mem, Lives(old(cs)))
    {
      hide *;
      RequestConstants(bytes);
      var alignment := RoundAlignment(alignment0);
      RoundedParts(alignment0, alignment);
      if bytes >= MAX_REQUEST - alignment {
        return Mem(0);
      }
      var nb := Request2Size(bytes);
      RequestSizes(bytes);
      var req := nb + alignment + 16 - 4;
      MemalignRequest(bytes, nb, alignment);
      ghost var h := H();
      r := Dlmalloc(req);
      if r.Mem? && r.ptr != 0 {
        var p := r.ptr - 8;
        GrantReady(h.cs, H(), p, Request2Size(req));
        MemalignRoom(h.cs, H(), p, nb, alignment, req);
        p := AlignChunk(h, p, nb, alignment);
        TopPositive(H());
        r := Mem(p + 8);
      }
    }

    /** Finds the aligned spot inside a chunk that is large enough, and gives back what is before
        and behind it. */
    method AlignChunk(ghost h: Heap, p0: int, nb: int, alignment: int) returns (p: int)
      requires Ready() && p0 in cs && cs[p0].live && p0 % 8 == 0 && 0 < p0 < 0x4000_0000
      requires p0 !in Lives(h.cs) && Lives(cs) == Lives(h.cs)[p0 := cs[p0].size] && PayloadKept(h.mem, mem, Lives(h.cs))
      requires 16 <= alignment <= 0x8000_0000 && PowerOfTwo(alignment)
      requires 16 <= nb && nb % 8 == 0 && nb + alignment + 16 <= cs[p0].size
      modifies this`mem, this`smallmap, this`treemap, this`dv, this`dvsize, this`top, this`topsize
      modifies this`small, this`trees, this`binned, this`cs
      ensures Ready() && (p + 8) % alignment == 0 && 0 < p && top + topsize == old(top + topsize)
      ensures Grants(h.cs, cs, p, nb) || GrantsOneMore(h.cs, cs, p, nb)
      ensures FirstSpot(p0, p, alignment)
      ensures var room := p0 + old(cs[p0].size) - p; p in cs && cs[p].size == if room > nb + 16 then nb else room
      ensures PayloadKept(h.mem, mem, Lives(h.cs))
    {
      hide *;
      p := p0;
      LiveSize(cs, p);
      HeadOfLive(H(), p);
      ghost var lives := Lives(h.cs);
      MaskLow(p + 8, alignment);
      FirstSpotHere(p, alignment);
      if BitAnd(p + 8, alignment - 1) != 0 {
        AlignedSpot(p, alignment);
        var br := BitAnd(p + 8 + alignment - 1, 0x1_0000_0000 - alignment) - 8;
        var pos := if br - p >= 16 then br else br + alignment;
        var leadsize := pos - p;
        var newsize := SizeOf(Head(mem, p)) - leadsize;
        ghost var m1 := mem;
        BackOne(lives, p, SizeOf(Head(mem, p)));
        TrimFront(p, leadsize, newsize);
        NotThere(lives, p0, p0 + leadsize, leadsize + newsize);
        p := pos;
        KeptTransitive(h.mem, m1, mem, lives, lives);
      }
      FindLive(cs, lives, p, Lives(cs)[p]);
      HeadOfLive(H(), p);
      var size := SizeOf(Head(mem, p));
      if size > nb + 16 {
        ghost var m1 := mem;
        BackOne(lives, p, size);
        TrimTail(p, nb, size - nb);
        ContentsParts(m1, mem, lives[p := size], p, nb);
        GrantEither(h.cs, cs, p, nb, nb);
        FindLive(cs, Lives(cs), p, nb);
        KeptTransitive(h.mem, m1, mem, lives, lives);
      } else {
        GrantEither(h.cs, cs, p, size, nb);
      }
    }
  }

  /** Like Grants, for a block with room for one chunk more: memalign only gives back a tail
      larger than the smallest chunk. */
  ghost predicate GrantsOneMore(cs: Chunks, cs': Chunks, p: int, nb: int) {
    && p in cs' && cs'[p].live && p !in Lives(cs) && cs'[p].size == nb + MIN_CHUNK_SIZE
    && Lives(cs') == Lives(cs)[p := cs'[p].size]
  }

  lemma GrantEither(cs: Chunks, cs': Chunks, p: int, s: int, nb: int)
    requires p !in Lives(cs) && Lives(cs') == Lives(cs)[p := s] && nb <= s <= nb + 16
    ensures Grants(cs, cs', p, nb) || GrantsOneMore(cs, cs', p, nb)
  {
    assert p in Lives(cs') && Lives(cs')[p] == s;
  }

  lemma RoundedParts(n: int, a: int)
    requires RoundedUp(n, a)
    ensures 16 <= a <= 0x8000_0000 && PowerOfTwo(a)
  {
  }

  lemma MemalignRequest(bytes: int, nb: int, a: int)
    requires 0 <= bytes < 0xFFFF_FFC0 - a && nb <= bytes + 16 && 16 <= nb && 16 <= a
    ensures 0 <= nb + a + 12 < TWO32
  {
  }

  lemma MemalignRoom(cs: Chunks, h: Heap, p: int, nb: int, a: int, req: int)
    requires HeapInv(h) && Grants(cs, h.cs, p, Request2Size(req)) && req == nb + a + 12 && 0 <= req < MAX_REQUEST
    ensures p in h.cs && h.cs[p].live && p % 8 == 0 && 0 < p < 0x4000_0000 && nb + a + 16 <= h.cs[p].size
    ensures p !in Lives(cs) && Lives(h.cs) == Lives(cs)[p := h.cs[p].size]
  {
    RequestSizes(req);
    BelowTop(h.cs, HEAP_BASE, h.top, p);
    hide Wf, Tagged, FreeFiled;
  }

  lemma BackOne(lives: Sizes, p: int, s: int)
    requires p !in lives
    ensures lives[p := s] - {p} == lives
  {
  }

  lemma NotThere(lives: Sizes, p: int, r: int, s: int)
    requires r !in lives[p := s]
    ensures r !in lives
  {
  }

  lemma FindLive(cs: Chunks, lives: Sizes, p: int, s: int)
    requires p in Lives(cs) && s == Lives(cs)[p]
    ensures p in cs && cs[p].live && cs[p].size == s
  {
  }

  lemma ContentsParts(m: Mem, m': Mem, lives: Sizes, p: int, nb: int)
    requires ContentsKept(m, m', lives, p, nb)
    ensures PayloadKept(m, m', lives - {p})
  {
  }

  lemma FrontLives(lives: Sizes, lives': Sizes, p: int, newp: int, leadsize: int, newsize: int)
    requires lives' - {newp} == lives[p := leadsize] && newp in lives' && lives'[newp] == newsize && newp !in lives
    requires p != newp
    ensures lives' - {p} == (lives - {p})[newp := newsize]
  {
    forall q ensures (q in lives' - {p} <==> q in (lives - {p})[newp := newsize])
                     && (q in lives' - {p} ==> (lives' - {p})[q] == (lives - {p})[newp := newsize][q]) {
      if q != newp {
        assert q in lives' <==> q in lives' - {newp};
        assert q in lives' ==> lives'[q] == (lives' - {newp})[q];
      }
    }
  }

  lemma KeptFront(m: Mem, m1: Mem, m2: Mem, lives: Sizes, p: int, newp: int, newsize: int)
    requires PayloadKept(m, m1, lives - {p}) && PayloadKept(m1, m2, (lives - {p})[newp := newsize]) && newp !in lives
    ensures PayloadKept(m, m2, lives - {p})
  {
    KeptWith(m, m1, m2, lives - {p}, newp, newsize);
  }

  lemma NoBytes(m: Mem, src: int, dst: int)
    ensures SameBytes(m, src, m, dst, 0)
  {
  }

  lemma FewBytes(m: Mem, src: int, m': Mem, dst: int, i: int, n: int)
    requires SameBytes(m, src, m', dst, i) && n <= i
    ensures SameBytes(m, src, m', dst, n)
  {
  }

  /** Something was granted: the heap is there, and the pointer is not null. */
  lemma GrantReady(cs: Chunks, h: Heap, q: int, nb: int)
    requires Grants(cs, h.cs, q, nb) && (Fresh(h) || HeapInv(h))
    ensures HeapInv(h) && 0 < h.top && 0 < q
  {
    ChunkInUse(h, q);
  }

  lemma KeptIs(size: int, bytes: int)
    ensures Kept(size, bytes) == if size - 4 < bytes then size - 4 else bytes
  {
  }

  lemma GrantParts(cs: Chunks, cs': Chunks, q: int, nb: int)
    requires Grants(cs, cs', q, nb)
    ensures q in cs' && q !in Lives(cs) && Lives(cs') == Lives(cs)[q := cs'[q].size]
  {
  }

  lemma LivesMoved(lives: Sizes, lives1: Sizes, lives2: Sizes, p: int, q: int, s: int)
    requires lives1 == lives[q := s] && lives2 == lives1 - {p} && p != q
    ensures lives2 == (lives - {p})[q := s]
  {
  }

  lemma KeptLarger(m: Mem, m1: Mem, m2: Mem, lives: Sizes, p: int, nb: int)
    requires PayloadKept(m, m1, lives) && PayloadKept(m1, m2, lives[p := nb]) && (p in lives ==> lives[p] <= nb)
    ensures PayloadKept(m, m2, lives)
  {
    forall q | q in lives ensures SameWords(m, m2, q + 8, q + lives[q] + 4) {
      assert SameWords(m, m1, q + 8, q + lives[q] + 4);
      assert SameWords(m1, m2, q + 8, q + lives[p := nb][q] + 4);
    }
  }

  lemma DvBehind(cs: Chunks, p: int, dv: int, nb: int, dsize: int)
    requires p in cs && End(cs, p) == dv && dv in cs && dsize == cs[p].size + cs[dv].size - nb
    ensures p + nb + dsize == End(cs, End(cs, p))
  {
  }

  lemma HeadOfLive(h: Heap, p: int)
    requires HeapInv(h) && p in h.cs
    ensures SizeOf(Head(h.mem, p)) == h.cs[p].size
  {
    BelowTop(h.cs, HEAP_BASE, h.top, p);
    assert TagOK(h.mem, h.cs, p);
    HeadTells(h.mem, h.cs, p);
  }

  lemma FittedIs(cs: Chunks, cs': Chunks, p: int, nb: int)
    requires p in cs && p in cs'
    ensures var s, n := cs[p].size, p + cs[p].size;
            Fitted(cs, cs', p, nb) <==>
              cs'[p].size ==
                if nb <= s then if s < nb + 16 then s else nb
                else if n in cs && s + cs[n].size < nb + 16 then s + cs[n].size
                else nb
  {
  }

  lemma SameResized(cs: Chunks, p: int, nb: int)
    requires p in cs && cs[p].live && nb <= cs[p].size < nb + 16
    ensures Resized(cs, cs, p, nb)
  {
    assert Lives(cs)[p := cs[p].size] == Lives(cs);
  }

  lemma CanShrink(heap: KernelHeap, extra: int)
    requires 0 <= extra && extra % PAGE_SIZE == 0 && heap.Valid() && heap.kernelHeapTop - extra >= 0x2000_0000
    ensures heap.Serves(-extra) && (-extra) % FRAME_SIZE == 0 && extra % 4096 == 0
    ensures PAGE_SIZE == 4096
  {
  }

  lemma NoneBinnedHuge(h: Heap, m: Mem, smallmap: BinMap, small: seq<seq<int>>, treemap: BinMap, trees: seq<Tree>)
    requires BinsInv(m, smallmap, small, treemap, trees, h.binned) && h.dvsize < 0x4000_0000
    ensures LeftToRest(h, 0xFFFF_FFFF) && TWO32 == 0x1_0000_0000
  {
    hide SmallOK, TreesOK;
  }

  lemma UnmarkedWhenFresh(h: Heap, smallmap: BinMap, small: seq<seq<int>>, treemap: BinMap, trees: seq<Tree>)
    requires BinsInv(h.mem, smallmap, small, treemap, trees, h.binned)
    ensures h.binned == map[] ==> IsZero(smallmap) && IsZero(treemap)
    ensures Fresh(h) ==> h.binned == map[]
  {
    if h.binned == map[] { EmptyBins(h.mem, smallmap, small, treemap, trees, h.binned); }
  }

  /** The two low bits of smallbits are the bins idx and idx + 1. */
  lemma SmallBitsMean(smallmap: BinMap, idx: nat)
    requires idx < 32
    ensures var s := ShiftRight(smallmap, idx);
            && (s[0] ==> smallmap[idx]) && (s[1] ==> idx + 1 < 32 && smallmap[idx + 1])
            && (IsZero(smallmap) ==> IsZero(s) && !s[0] && !s[1])
  {
    SmallBits(smallmap, idx);
  }

  lemma NoneFitsSmall(h: Heap, m: Mem, smallmap: BinMap, small: seq<seq<int>>, treemap: BinMap, trees: seq<Tree>,
        nb: int)
    requires BinsInv(m, smallmap, small, treemap, trees, h.binned) && 16 <= nb < 256 && nb % 8 == 0 && h.dvsize < nb
    requires IsZero(ShiftRight(smallmap, nb / 8)) && IsZero(treemap)
    ensures LeftToRest(h, nb)
  {
    hide SmallOK, TreesOK, IsZero, ShiftRight;
    forall x | x in h.binned ensures h.binned[x] < nb {
      NoTrees(m, treemap, trees, h.binned, x);
      NoSmallAbove(m, smallmap, small, h.binned, nb / 8, x);
    }
  }

  lemma NoneFitsLarge(h: Heap, m: Mem, treemap: BinMap, trees: seq<Tree>, nb: int)
    requires TreesOK(m, treemap, trees, h.binned) && 256 <= nb && (IsZero(treemap) || LeftToRest(h, nb))
    ensures LeftToRest(h, nb)
  {
    if IsZero(treemap) {
      forall x | x in h.binned ensures h.binned[x] < nb {
        NoTrees(m, treemap, trees, h.binned, x);
      }
    }
  }

  lemma DvOrNone(h: Heap)
    requires Fresh(h) || HeapInv(h)
    ensures 0 <= h.dvsize < 0x4000_0000 && (h.top == 0 ==> h.dvsize == 0 && h.cs == map[] && h.binned == map[])
  {
    if HeapInv(h) { DvBound(h); }
    TopBounds(h);
  }

  lemma RequestConstants(bytes: int)
    ensures MAX_REQUEST == 0xFFFF_FFC0 && MAX_SMALL_REQUEST == 244 && MIN_REQUEST == 11 && MIN_CHUNK_SIZE == 16
    ensures Request2Size(bytes) == if bytes < 11 then 16 else PadRequest(bytes)
  {
  }

  lemma NullIsHuge(nb: int, contiguous: bool, top: int, topsize: int)
    requires 16 <= nb && 0 <= topsize <= nb && (top == 0 ==> topsize == 0)
    ensures nb + SYS_ALLOC_PADDING + 4095 >= TWO32 || HALF_MAX_SIZE_T <= Demand(nb, contiguous, top, topsize) ==>
              nb >= 0x7FFF_E010
  {
    if nb + SYS_ALLOC_PADDING + 4095 < TWO32 {
      DemandBounds(nb, contiguous, top, topsize);
      PageAlignBounds(nb + SYS_ALLOC_PADDING);
    }
  }

  lemma HeapConstants()
    ensures HEAP_BASE == 0x2000_0000 && HEAP_LIMIT == 0x4000_0000 && TWO32 == 0x1_0000_0000
    ensures TOP_FOOT_SIZE == 40 && SYS_ALLOC_PADDING == 48 && HALF_MAX_SIZE_T == 0x7FFF_FFFF && NSMALLBINS == 32
    ensures FRAME_SIZE == 4096 && PAGE_SIZE == 4096
  {
  }

  lemma SegmentFits(heap: KernelHeap)
    requires heap.Valid()
    ensures 0x2000_0000 <= heap.kernelHeapTop < 0x4000_0000 && heap.kernelHeapTop % 4096 == 0
  {
  }

  lemma FreshParts(h: Heap)
    requires Fresh(h)
    ensures h.cs == map[] && h.binned == map[] && h.topsize == 0 && h.dv == 0 && h.dvsize == 0
  {
  }

  lemma FirstKept(m: Mem, m': Mem, cs: Chunks)
    requires cs == map[]
    ensures PayloadKept(m, m', Lives(cs))
  {
  }

  lemma TopBounds(h: Heap)
    requires Fresh(h) || HeapInv(h)
    ensures 0 <= h.topsize < 0x4000_0000 && (h.top == 0 <==> Fresh(h)) && (h.top == 0 ==> h.topsize == 0)
  {
    if HeapInv(h) { TopAboveBase(h.cs, h.top); }
  }

  lemma ChunkPositive(h: Heap, p: int)
    requires HeapInv(h) && p in h.cs
    ensures 0 < p
  {
    BelowTop(h.cs, HEAP_BASE, h.top, p);
  }

  lemma TopPositive(h: Heap)
    requires HeapInv(h)
    ensures 0x2000_0000 <= h.top
  {
    TopAboveBase(h.cs, h.top);
  }

  /** A small request that skips bins idx and idx + 1 leaves a remainder of at least 16. */
  lemma NextSmallBin(smallmap: BinMap, idx: nat)
    requires idx < 32
    requires var s := ShiftRight(smallmap, idx); !s[0] && !s[1] && !IsZero(s)
    ensures var left := And(ShiftLeft(ShiftRight(smallmap, idx), idx), LeftBits(IdxBit(idx)));
            var i := TrailingZeros(LeastBit(left));
            && i < 32 && smallmap[i] && 8 * i - 8 * idx >= 16
            && forall j | idx <= j < i :: !smallmap[j]
  {
    hide *;
    SmallBits(smallmap, idx);
    AboveMarks(smallmap, idx);
    FirstMarked(Above(smallmap, idx));
  }

  lemma SizePositive(h: Heap, p: int)
    requires HeapInv(h) && p in h.cs
    ensures 0 < p && 0 < h.cs[p].size
  {
    BelowTop(h.cs, HEAP_BASE, h.top, p);
  }

  lemma LiveIs(cs: Chunks, p: int)
    requires p in cs && cs[p].live
    ensures p in Lives(cs)
  {
  }

  lemma NullIsFree(h: Heap, p: int)
    requires HeapInv(h) && p in Lives(h.cs)
    ensures p in h.cs && h.cs[p].live && p + 8 != 0
  {
    BelowTop(h.cs, HEAP_BASE, h.top, p);
  }

  lemma MakeFreed(h: Heap, h': Heap, p: int)
    requires HeapInv(h') && p in Lives(h.cs) && Lives(h'.cs) == Lives(h.cs) - {p}
    ensures Freed(h, h', p)
  {
  }

  /** What is left of a top of some size: above the threshold it is trimmed, if there is anything to
      release, to at most a page more than sys_trim wants to keep. */
  ghost predicate TrimmedFrom(grown: int, topsize: int, threshold: int) {
    if grown > threshold && grown > 40 then 40 < topsize <= 40 + 4096 else topsize == grown
  }

  lemma TrimmedIs(grown: int, topsize: int, threshold: int)
    ensures TrimmedFrom(grown, topsize, threshold) <==>
              if grown > threshold && grown > 40 then 40 < topsize <= 40 + 4096 else topsize == grown
  {
  }

  /** A small size that no marked bin from idx on undercuts. */
  ghost predicate Lowest(smallmap: BinMap, idx: nat, s: int) {
    s % 8 == 0 && 8 * idx <= s < 256 && forall j: nat | idx <= j < s / 8 :: !smallmap[j]
  }

  lemma MakeLowest(smallmap: BinMap, idx: nat, i: nat)
    requires idx <= i < 32 && forall j: nat | idx <= j < i :: !smallmap[j]
    ensures Lowest(smallmap, idx, 8 * i)
  {
  }

  /** Every binned small chunk that fits is seen in the shifted small map. */
  ghost predicate Seen(binned: Sizes, smallmap: BinMap, bits: BinMap, nb: int)
    requires nb >= 0
  {
    forall x | x in binned && nb <= binned[x] < 256 ::
      binned[x] % 8 == 0 && smallmap[binned[x] / 8] && bits[binned[x] / 8 - nb / 8]
  }

  lemma AllSeen(m: Mem, smallmap: BinMap, small: seq<seq<int>>, treemap: BinMap, trees: seq<Tree>, binned: Sizes,
        nb: int)
    requires BinsInv(m, smallmap, small, treemap, trees, binned) && 16 <= nb < 256
    ensures Seen(binned, smallmap, ShiftRight(smallmap, nb / 8), nb)
  {
    forall x | x in binned && nb <= binned[x] < 256
      ensures binned[x] % 8 == 0 && smallmap[binned[x] / 8] && ShiftRight(smallmap, nb / 8)[binned[x] / 8 - nb / 8]
    {
      SmallMarked(m, smallmap, small, binned, nb / 8, x);
    }
  }

  lemma ExactPlaced(h: Heap, smallmap: BinMap, bits: BinMap, nb: int, p: int)
    requires 16 <= nb < 256 && Seen(h.binned, smallmap, bits, nb) && nb % 8 == 0 && p in h.binned
    requires h.binned[p] == (if bits[0] then nb else nb + 8) && h.binned[p] < 256
    ensures Placed(h, nb, p)
  {
    forall x | x in h.binned && nb <= h.binned[x] ensures h.binned[p] <= h.binned[x] {
    }
  }

  lemma NextPlaced(h: Heap, smallmap: BinMap, bits: BinMap, nb: int, p: int)
    requires 16 <= nb < 256 && Seen(h.binned, smallmap, bits, nb) && nb % 8 == 0 && p in h.binned
    requires h.dvsize < nb && Lowest(smallmap, nb / 8, h.binned[p])
    ensures Placed(h, nb, p)
  {
    forall x | x in h.binned && nb <= h.binned[x] ensures h.binned[p] <= h.binned[x] {
    }
  }

  lemma TreePlaced(h: Heap, smallmap: BinMap, bits: BinMap, nb: int, p: int)
    requires 16 <= nb < 256 && Seen(h.binned, smallmap, bits, nb) && IsZero(bits) && p in h.binned
    requires h.dvsize < nb && TightFit(h.binned, nb, p)
    ensures Placed(h, nb, p)
  {
    forall x | x in h.binned && nb <= h.binned[x] ensures 256 <= h.binned[x] {
    }
  }

  lemma DvPreferred(h: Heap, smallmap: BinMap, bits: BinMap, nb: int)
    requires 16 <= nb < 256 && Seen(h.binned, smallmap, bits, nb) && nb % 8 == 0 && !bits[0] && !bits[1]
    requires nb <= h.dvsize
    ensures LeftToRest(h, nb)
  {
    forall x | x in h.binned && nb <= h.binned[x] ensures Preferred(h, nb) <= h.binned[x] {
    }
  }

  lemma RestParts(h: Heap, nb: int)
    requires LeftToRest(h, nb)
    ensures nb <= h.dvsize || NoneBinned(h.binned, nb)
  {
  }

  /** The place of a large request. */
  lemma LargePlaces(h: Heap, nb: int)
    requires 256 <= nb
    ensures forall p | p in h.binned && TightFit(h.binned, nb, p)
              && !(forall x | x in h.binned && 256 <= h.binned[x] && nb <= h.binned[x] ::
                nb <= h.dvsize <= h.binned[x]) :: Placed(h, nb, p)
    ensures (forall x | x in h.binned && 256 <= h.binned[x] && nb <= h.binned[x] :: nb <= h.dvsize <= h.binned[x])
              ==> LeftToRest(h, nb)
  {
  }

  /** A tree chunk that no other tree chunk fits better than. */
  ghost predicate TightFit(binned: Sizes, nb: int, v: int)
    requires v in binned
  {
    && 256 <= binned[v] && nb <= binned[v]
    && forall x | x in binned && 256 <= binned[x] && nb <= binned[x] :: binned[v] <= binned[x]
  }

  lemma DvBound(h: Heap)
    requires HeapInv(h)
    ensures 0 <= h.dvsize < 0x4000_0000 < TWO32
    ensures h.dvsize != 0 ==>
              h.dv in h.cs && h.cs[h.dv].size == h.dvsize && 16 <= h.dvsize && h.dvsize % 8 == 0 &&
              !h.cs[h.dv].live && h.dv > 0
  {
    if h.dvsize != 0 { BelowTop(h.cs, HEAP_BASE, h.top, h.dv); }
  }

  lemma BestMeans(binned: Sizes, nb: int, v: int, rsize: int, dvsize: int)
    requires BestIn(binned, nb, v, rsize) && 16 <= nb < TWO32 && 0 <= dvsize < TWO32
    requires Blocks(binned)
    ensures v != 0 ==> v in binned && 0 < v && 256 <= binned[v] == nb + rsize && 0 <= rsize && TightFit(binned, nb, v)
    ensures (v != 0 && rsize < (dvsize - nb) % 0x1_0000_0000)
              <==> !forall x | x in binned && 256 <= binned[x] && nb <= binned[x] :: nb <= dvsize <= binned[x]
  {
  }

  lemma RemBelow(size: int, nb: int)
    ensures Rem(size, nb) <= 0x1_0000_0000
  {
  }

  lemma StartSmall(nb: nat)
    requires 16 <= nb < 256
    ensures StartBin(nb, 0)
  {
  }

  lemma LivesFree(cs: Chunks, p: int)
    requires p in cs && !cs[p].live
    ensures p !in Lives(cs)
  {
  }

  lemma BinsParts(m: Mem, smallmap: BinMap, small: seq<seq<int>>, treemap: BinMap, trees: seq<Tree>, binned: Sizes)
    requires BinsInv(m, smallmap, small, treemap, trees, binned)
    ensures Blocks(binned) && SmallOK(m, smallmap, small, binned) && TreesOK(m, treemap, trees, binned)
  {
  }

  lemma OnPath(m: Mem, t: Tree, nb: int, idx: nat)
    requires idx < NTREEBINS && 256 <= nb && Rep(m, t, TreeBin(idx), idx) && Trie(t, BinLo(idx), BinWidth(idx))
    requires BinLo(idx) <= nb < BinLo(idx) + BinWidth(idx)
    ensures t.Node? && nb % 8 == 0 ==> WalkReady(m, t, TreeBin(idx), idx, nb, BinLo(idx), BinWidth(idx))
  {
  }

  lemma WalkRoot(m: Mem, t: Tree, parent: int, i: int)
    requires Rep(m, t, parent, i)
    ensures Root(t) == 0 <==> t.Leaf?
  {
  }

  lemma StillNone(t: Tree, nb: int, v: int, rsize: int)
    requires Remains(t, Leaf, nb, v, rsize) && v == 0
    ensures rsize == TWO32 - nb
  {
  }

  lemma RoomBounded(t0: Tree, tt: Tree, nb: int, v: int, rsize: int)
    requires Sized(t0) && Remains(t0, tt, nb, v, rsize) && 0 < nb
    ensures rsize <= 0x1_0000_0000
  {
  }

  lemma PartSelf(t: Tree)
    ensures Part(t, t)
  {
  }

  /** What the search reads at a tree member. */
  lemma WalkNode(m: Mem, t: Tree, parent: int, i: int)
    requires Rep(m, t, parent, i) && Root(t) != 0
    ensures t.Node? && t.addr == Root(t) && SizeOf(Head(m, t.addr)) == t.size
    ensures Child0(m, t.addr) == Root(t.left) && Child1(m, t.addr) == Root(t.right)
    ensures Rep(m, t.left, t.addr, i) && Rep(m, t.right, t.addr, i)
    ensures LeftmostChild(t) == if Root(t.left) != 0 then t.left else t.right
    ensures (Root(t.left) == 0 ==> t.left.Leaf?) && (Root(t.right) == 0 ==> t.right.Leaf?)
    ensures t.left < t && t.right < t
  {
  }

  lemma WalkOpen(m: Mem, cur: Tree, parent: int, i: int, s: int, lo: int, w: int)
    requires WalkReady(m, cur, parent, i, s, lo, w)
    ensures cur.Node? && Rep(m, cur, parent, i) && Root(cur) == cur.addr != 0
  {
  }

  lemma EmptyWalk(m: Mem, t: Tree, parent: int, i: int, nb: int, r0: int, t0: Tree)
    requires Rep(m, t, parent, i) && Root(t) == 0
    ensures LeastRem(t, nb) == 0x1_0000_0000
    ensures 0 <= LeastRem(t0, nb) <= 0x1_0000_0000
  {
    LeastRemPositive(t0, nb);
  }

  lemma StartFit(m: Mem, t: Tree, nb: int, parent: int, i: nat, lo: int, w: int)
    requires 256 <= nb < TWO32 && Sized(t)
    requires t.Node? ==> WalkReady(m, t, parent, i, nb, lo, w)
    ensures Part(t, t) && Fit(t, nb, 0, 0x1_0000_0000 - nb) && 0 < 0x1_0000_0000 - nb
    ensures Covered(t, t, Leaf, nb, 0x1_0000_0000 - nb) && Beyond(t, Leaf, lo + w, nb)
    ensures Rep(m, Leaf, 0, i) && Root(Leaf) == 0
    ensures Root(t) == 0 ==> Remains(t, t, nb, 0, 0x1_0000_0000 - nb) && Rep(m, t, parent, i)
    ensures Root(t) != 0 ==> t.Node? && t.addr == Root(t) && WalkReady(m, t, parent, i, nb, lo, w)
  {
  }

  /** One turn of the search loop. */
  lemma FitStep(m: Mem, t0: Tree, cur: Tree, sub: Tree, parent: int, i: int, lo: int, w: int, nb: int, v: int,
        rsize: int)
    requires cur.Node? && WalkReady(m, cur, parent, i, nb, lo, w) && 256 <= nb < TWO32 && Sized(t0)
    requires Part(t0, cur) && Fit(t0, nb, v, rsize) && 0 < rsize
    requires Covered(t0, cur, sub, nb, rsize) && Beyond(t0, sub, lo + w, nb)
    ensures var better := Rem(cur.size, nb) < rsize;
            var v', r' := if better then cur.addr else v, if better then Rem(cur.size, nb) else rsize;
            var goLeft := nb < lo + w / 2;
            var cur' := if goLeft then cur.left else cur.right;
            var sub' := if goLeft && cur.right.Node? then cur.right else sub;
            && Fit(t0, nb, v', r') && 0 <= r' && (r' == 0 ==> v' != 0 && Remains(t0, cur, nb, v', r'))
            && (r' != 0 ==> cur.size != nb)
            && Part(t0, cur') && Covered(t0, cur', sub', nb, r')
            && Beyond(t0, sub', if goLeft then lo + w / 2 else lo + w, nb)
            && (cur'.Leaf? ==> Remains(t0, sub', nb, v', r'))
    ensures nb < lo + w / 2 ==> (Root(cur.right) != 0 && Root(cur.right) != Root(cur.left) <==> cur.right.Node?)
  {
    PartChildren(t0, cur);
    Visit(t0, cur, sub, nb, v, rsize);
    var r' := if Rem(cur.size, nb) < rsize then Rem(cur.size, nb) else rsize;
    Down(t0, cur, sub, lo, w, nb, rsize, r');
    RootsDiffer(m, cur, parent, i, lo, w);
    RemFits(cur.size, nb, rsize);
  }

  lemma RootsDiffer(m: Mem, t: Tree, parent: int, i: int, lo: int, w: int)
    requires t.Node? && Rep(m, t, parent, i) && Trie(t, lo, w)
    ensures Root(t.right) != 0 && Root(t.right) != Root(t.left) <==> t.right.Node?
  {
    if t.left.Node? && t.right.Node? {
      SizesInRange(t.left, lo, w / 2, t.left.size);
      SizesInRange(t.right, lo + w / 2, w / 2, t.right.size);
    }
  }

  /** How the tree member t.addr and its replacement look before and after Detach. */
  ghost predicate DetachFacts(m: Mem, t: Tree)
    requires t.Node?
  {
    && (Bk(m, t.addr) != t.addr <==> t.ring != [])
    && (t.ring != [] ==> Bk(m, t.addr) == Root(RemoveAt(t, t.addr)))
    && (t.ring == [] && !IsLeafNode(t) ==> Root(RemoveAt(t, t.addr)) == Rightmost(t).addr)
    && (t.ring == [] && IsLeafNode(t) ==> RemoveAt(t, t.addr).Leaf?)
  }

  lemma DetachFactsHold(m: Mem, t: Tree, parent: int, i: int, lo: int, w: int)
    requires t.Node? && Rep(m, t, parent, i) && Spread(t) && Trie(t, lo, w)
    ensures DetachFacts(m, t)
  {
    AloneInRing(m, t, parent, i, lo, w);
    if t.ring != [] { ChainReady(m, t, parent, i, lo, w); }
  }

  /** The word that leads to x: *H if x is the root, else the child word of XP that holds x. */
  function LinkWord(m: Mem, x: int, xp: int, i: nat): int
  {
    if Rd(m, TreeBin(i)) == x then TreeBin(i) else if Child0(m, xp) == x then xp + 16 else xp + 20
  }

  /** x is chained behind a tree member of its size: unlinking only closes the ring. */
  ghost predicate ChainedPlan(m: Mem, t: Tree, x: int, s: int, i: nat)
    requires i < NTREEBINS
  {
    var lo, w, h := BinLo(i), BinWidth(i), TreeBin(i);
    var sub, xp := SubAt(t, s, lo, w), ParentAt(t, h, s, lo, w);
    && sub.Node? && Rep(m, sub, xp, i) && sub.addr != x
    && Parent(m, x) == 0 && Bk(m, x) != x
    && Remove(t, x, s, lo, w).Node?
    && UnlinkLargeMem(m, t, x, s, i) == Join(m, Fd(m, x), Bk(m, x))
  }

  /** x is a tree member: it is replaced. */
  ghost predicate MemberPlan(m: Mem, t: Tree, x: int, s: int, i: nat)
    requires i < NTREEBINS
  {
    var lo, w, h := BinLo(i), BinWidth(i), TreeBin(i);
    var sub, xp := SubAt(t, s, lo, w), ParentAt(t, h, s, lo, w);
    && sub.Node? && Rep(m, sub, xp, i) && sub.addr == x
    && DetachFacts(m, sub) && Parent(m, x) == xp != 0
    && var m1, n := DetachMem(m, sub), RemoveAt(sub, x);
    && Index(m1, x) == i && (n.Node? ==> Root(n) != 0)
    && (Remove(t, x, s, lo, w).Leaf? <==> Rd(m1, h) == x && n.Leaf?)
    && UnlinkLargeMem(m, t, x, s, i) == Unlinked(m1, LinkWord(m1, x, xp, i), n, x, xp)
  }

  /** The two cases of unlink_large_chunk, told apart by the parent word. */
  lemma UnlinkPlan(m: Mem, treemap: BinMap, trees: seq<Tree>, binned: Sizes, x: int, s: int, i: nat)
    requires TreesOK(m, treemap, trees, binned) && Blocks(binned)
    requires x in binned && 256 <= s == binned[x] && i == TreeIndex(s)
    ensures |trees| == NTREEBINS && i < NTREEBINS
    ensures ChainedPlan(m, trees[i], x, s, i) || MemberPlan(m, trees[i], x, s, i)
  {
    assert InItsTree(trees, x, s);
    assert TreeBinOK(m, treemap[i], trees[i], i) && TreeContents(trees[i], i, binned);
    TreeSpread(m, treemap, trees, binned, i);
    hide TreeIndex, BinLo, BinWidth, TreesOK, Blocks, TreeContents;
    var t, lo, w, h := trees[i], BinLo(i), BinWidth(i), TreeBin(i);
    var sub := SubAt(t, s, lo, w);
    RemoveIsReplace(t, x, s, lo, w);
    if sub.addr != x {
      ChainedPlanHolds(m, t, x, s, i);
    } else {
      MemberPlanHolds(m, t, x, s, i);
    }
  }

  lemma ChainedPlanHolds(m: Mem, t: Tree, x: int, s: int, i: nat)
    requires i < NTREEBINS && Rep(m, t, TreeBin(i), i) && Trie(t, BinLo(i), BinWidth(i)) && Spread(t)
    requires Holds(t, x, s)
    requires var sub := SubAt(t, s, BinLo(i), BinWidth(i)); sub.Node? && sub.addr != x
    ensures ChainedPlan(m, t, x, s, i)
  {
    var lo, w, h := BinLo(i), BinWidth(i), TreeBin(i);
    hide BinLo, BinWidth;
    RemoveIsReplace(t, x, s, lo, w);
    SubHeld(m, t, h, i, s, lo, w);
    ChainedUnlinked(m, t, h, i, x, s, lo, w);
    RootAfter(t, x, s, lo, w);
  }

  /** The tree becomes empty when its root leaves without a replacement. */
  lemma EmptiesTree(t: Tree, x: int, s: int, lo: int, w: int, h: int)
    requires t.Node? && SubAt(t, s, lo, w).Node? && SubAt(t, s, lo, w).addr == x
    requires t.size != s ==> x != t.addr
    ensures var n := RemoveAt(SubAt(t, s, lo, w), x);
            Remove(t, x, s, lo, w).Leaf? <==> t.addr == x && n.Leaf?
  {
    RootAfter(t, x, s, lo, w);
  }

  lemma MemberPlanHolds(m: Mem, t: Tree, x: int, s: int, i: nat)
    requires i < NTREEBINS && Rep(m, t, TreeBin(i), i) && Trie(t, BinLo(i), BinWidth(i)) && Spread(t)
    requires Holds(t, x, s) && AllApart(t, TreeBin(i) - 16) && Rd(m, TreeBin(i)) == Root(t)
    requires var sub := SubAt(t, s, BinLo(i), BinWidth(i)); sub.Node? && sub.addr == x
    ensures MemberPlan(m, t, x, s, i)
  {
    assert t.Node?;
    var lo, w, h := BinLo(i), BinWidth(i), TreeBin(i);
    var sub, xp := SubAt(t, s, lo, w), ParentAt(t, h, s, lo, w);
    assert UnlinkLargeMem(m, t, x, s, i) == Unlinked(DetachMem(m, sub), LinkTo(m, t, h, s, lo, w, h, x),
      RemoveAt(sub, x), x, xp);
    assert t.size == s ==> sub == t;
    hide BinLo, BinWidth, UnlinkLargeMem, SubAt, ParentAt, Rep, Trie, Spread, Holds, AllApart, DetachMem, DetachFacts,
      RemoveAt, Remove, Unlinked, AdoptReady, AdoptShape;
    var lo', w' := SubTrie(t, s, lo, w);
    SubHeld(m, t, h, i, s, lo, w);
    DetachFactsHold(m, sub, xp, i, lo', w');
    DetachReady(m, sub, xp, i, lo', w');
    DetachKeeps(m, t, i, s);
    EmptiesTree(t, x, s, lo, w, h);
  }

  lemma LeafStep(m: Mem, t: Tree, parent: int, i: int)
    requires t.Node? && Rep(m, t, parent, i)
    ensures Rd(m, t.addr + 20) == Root(t.right) && Rd(m, t.addr + 16) == Root(t.left)
    ensures Rep(m, t.left, t.addr, i) && Rep(m, t.right, t.addr, i)
    ensures (Root(t.left) == 0 <==> t.left.Leaf?) && (Root(t.right) == 0 <==> t.right.Leaf?)
    ensures t.right.Node? ==> Rightmost(t) == Rightmost(t.right)
    ensures t.right.Leaf? && t.left.Node? ==> Rightmost(t) == Rightmost(t.left)
    ensures IsLeafNode(t) ==> Rightmost(t) == t
    ensures forall slot {:trigger RpSlot(t, slot)} ::
              RpSlot(t, slot) == if t.right.Node? then RpSlot(t.right, t.addr + 20)
                                 else if t.left.Node? then RpSlot(t.left, t.addr + 16) else slot
    ensures !IsLeafNode(t) ==>
              LeafSlot(t) == if t.right.Node? then RpSlot(t.right, t.addr + 20) else RpSlot(t.left, t.addr + 16)
    ensures t.addr != 0
  {
  }

  /** The word of a treebin is its root, and its map bit says whether there is one. */
  lemma BinRoot(m: Mem, treemap: BinMap, trees: seq<Tree>, binned: Sizes, i: nat)
    requires TreesOK(m, treemap, trees, binned) && i < NTREEBINS
    ensures Rd(m, TreeBin(i)) == Root(trees[i])
    ensures treemap[i] <==> trees[i].Node?
  {
    assert TreeBinOK(m, treemap[i], trees[i], i);
  }

  /** What holds at each node of the walk: the rest of the search happens below cur. */
  ghost predicate WalkReady(m: Mem, cur: Tree, parent: int, i: int, s: int, lo: int, w: int) {
    cur.Node? && Rep(m, cur, parent, i) && Trie(cur, lo, w) && lo <= s < lo + w && s % 8 == 0
  }

  lemma WalkDepth(m: Mem, t: Tree, parent: int, i: nat, s: int)
    requires i < NTREEBINS && WalkReady(m, t, parent, i, s, BinLo(i), BinWidth(i))
    ensures Height(t) <= 30 - LeftShift(i)
  {
    DepthBound(t, i);
  }

  lemma LeftShiftFits(i: nat)
    requires i < NTREEBINS
    ensures 0 <= LeftShift(i) <= 25
  {
  }

  lemma WalkStart(m: Mem, t: Tree, i: nat, s: nat)
    requires i < NTREEBINS && WalkReady(m, t, TreeBin(i), i, s, BinLo(i), BinWidth(i))
    ensures t.Node? && Scaled(SizeBits(s, i), s, BinLo(i), BinWidth(i), Pow2(LeftShift(i)))
  {
    hide BinLo, BinWidth, Rep, Trie, SizeBits, Pow2, LeftShift;
    SizeBitsScaled(s, i);
  }

  lemma WalkStep(m: Mem, cur: Tree, parent: int, i: int, s: int, lo: int, w: int, k: int, u: int)
      returns (c: int, half: Tree, lo': int, w': int, u': int)
    requires WalkReady(m, cur, parent, i, s, lo, w) && Scaled(k, s, lo, w, u)
    ensures SizeOf(Head(m, cur.addr)) == cur.size
    ensures s == cur.size ==> FindSpot(cur, s, lo, w) == Behind(cur.addr)
    ensures c == cur.addr + 16 + 4 * (k / 0x8000_0000)
    ensures s != cur.size ==>
              && Rd(m, c) == Root(half) && half < cur
              && half == (if s < lo + w / 2 then cur.left else cur.right)
              && lo' == (if s < lo + w / 2 then lo else lo + w / 2)
              && lo' + w' == (if s < lo + w / 2 then lo + w / 2 else lo + w)
              && (Root(half) == 0 ==> FindSpot(cur, s, lo, w) == Slot(c, cur.addr))
              && (Root(half) != 0 ==>
                half.Node? && Root(half) == half.addr &&
                WalkReady(m, half, cur.addr, i, s, lo', w')
                && FindSpot(cur, s, lo, w) == FindSpot(half, s, lo', w'))
              && Scaled(k * 2 % 0x1_0000_0000, s, lo', w', u')
  {
    var goLeft := s < lo + w / 2;
    u' := 2 * u;
    c := cur.addr + 16 + 4 * (k / 0x8000_0000);
    half := Half(cur, goLeft);
    lo', w' := if goLeft then lo else lo + w / 2, w / 2;
    if s != cur.size {
      Halve(lo, w, s, cur.size);
      hide Width;
      ScaledStep(k, s, lo, w, u);
      hide Scaled;
      assert TreeNode(m, cur, parent, i);
      assert Rep(m, half, cur.addr, i);
    }
  }

  lemma InsertReady(m: Mem, treemap: BinMap, trees: seq<Tree>, binned: Sizes, x: int, s: int, i: nat)
    requires TreesOK(m, treemap, trees, binned) && Blocks(binned[x := s]) && x !in binned && 256 <= s
    requires i < NTREEBINS && i == TreeIndex(s) && treemap[i]
    ensures var m1 := FreshMem(m, x, i);
            && WalkReady(m1, trees[i], TreeBin(i), i, s, BinLo(i), BinWidth(i))
            && Rd(m1, TreeBin(i)) == trees[i].addr
  {
    assert binned[x := s][x] == s;
    BinRange(s);
    assert TreeBinOK(m, treemap[i], trees[i], i) && TreeContents(trees[i], i, binned);
    hide TreeIndex, BinLo, BinWidth, Trie;
    TreeApartFrom(trees, binned, x, s, i);
    FreshRep(m, trees[i], x, i);
    FreshFields(m, x, i);
  }

  /** Where the insertion will write, by whether the bin is empty. */
  ghost predicate InsertPlan(m: Mem, treemap: BinMap, t: Tree, x: int, s: int, i: nat)
    requires i < NTREEBINS
  {
    var m1 := FreshMem(m, x, i);
    if treemap[i] then
      && WalkReady(m1, t, TreeBin(i), i, s, BinLo(i), BinWidth(i))
      && Rd(m1, TreeBin(i)) == t.addr
      && InsertLargeMem(m, t, x, s, i) == Place(m1, FindSpot(t, s, BinLo(i), BinWidth(i)), x)
      && Mark(treemap, i) == treemap
    else InsertLargeMem(m, t, x, s, i) == Place(m1, Slot(TreeBin(i), TreeBin(i)), x)
  }

  lemma InsertPlanHolds(m: Mem, treemap: BinMap, trees: seq<Tree>, binned: Sizes, x: int, s: int, i: nat)
    requires TreesOK(m, treemap, trees, binned) && Blocks(binned[x := s]) && x !in binned && 256 <= s
    requires i < NTREEBINS && i == TreeIndex(s)
    ensures InsertPlan(m, treemap, trees[i], x, s, i)
  {
    BinRoot(m, treemap, trees, binned, i);
    if treemap[i] {
      InsertReady(m, treemap, trees, binned, x, s, i);
      MarkMarks(treemap, i);
    }
  }

  /** What unlinking the first chunk of a marked small bin comes to. */
  lemma UnlinkFirstPlan(m: Mem, smallmap: BinMap, small: seq<seq<int>>, treemap: BinMap, trees: seq<Tree>,
        binned: Sizes, i: nat) returns (m': Mem, marks: BinMap, rings: seq<seq<int>>)
    requires BinsInv(m, smallmap, small, treemap, trees, binned) && i < NSMALLBINS && smallmap[i]
    ensures var b := SmallBin(i);
            var p, f := Fd(m, b), Fd(m, Fd(m, b));
            && |small| == NSMALLBINS && NSMALLBINS == 32 && small[i] != [] && small[i][0] == p
            && p in binned && binned[p] == 8 * i
            && m' == (if b == f then m else m[f + 12 := b][b + 8 := f])
            && marks == (if b == f then Clear(smallmap, i) else smallmap)
            && rings == small[i := small[i][1..]]
            && BinsInv(m', marks, rings, treemap, trees, binned - {p})
            && BinsFrame(m, m', binned)
  {
    hide *;
    var b := SmallBin(i);
    var f := Fd(m, Fd(m, b));
    BinsParts(m, smallmap, small, treemap, trees, binned);
    FirstChunk(m, smallmap, small, binned, i);
    OfEight(i);
    UnlinkSmallInv(m, smallmap, small, treemap, trees, binned, Fd(m, b));
    FirstUnlinked(m, Fd(m, b), b);
    m' := if b == f then m else m[f + 12 := b][b + 8 := f];
    marks := if b == f then Clear(smallmap, i) else smallmap;
    rings := small[i := small[i][1..]];
  }

  lemma OfEight(i: nat)
    ensures 8 * i / 8 == i && (i < NSMALLBINS ==> 8 * i < 256) && NSMALLBINS == 32
  {
  }

  lemma FirstUnlinked(m: Mem, p: int, b: int)
    requires Bk(m, p) == b
    ensures UnlinkSmallMem(m, p) == if b == Fd(m, p) then m else m[Fd(m, p) + 12 := b][b + 8 := Fd(m, p)]
  {
  }

  lemma FirstChunk(m: Mem, smallmap: BinMap, small: seq<seq<int>>, binned: Sizes, i: nat)
    requires SmallOK(m, smallmap, small, binned) && i < NSMALLBINS && smallmap[i] && Blocks(binned)
    ensures var p := Fd(m, SmallBin(i));
            && p in binned && binned[p] == 8 * i
            && Bk(m, p) == SmallBin(i)
            && |small| == NSMALLBINS && small[i] != [] && small[i][0] == p && Without(small[i], p) == small[i][1..]
  {
    FirstKnown(m, smallmap, small, binned, i);
    var r := [SmallBin(i)] + small[i];
    assert Linked(m, r, 1);
    assert Prev(r, 1) == SmallBin(i);
  }

}
