/** Best fit in a treebin: the walk that remembers the deepest untaken right subtree, and the
    walk to the leftmost leaf. */
module TreeSearch {
  import opened Words
  import opened Tries
  import opened TrieMemory
  import opened BinIndex
  import opened BinMaps
  import opened Bins

  /** chunksize(t) - nb, in 32 bits. */
  function Rem(size: int, nb: int): int { (size - nb) % TWO32 }

  /** The best fit met so far: chunk v, with rsize bytes to spare. Without one, rsize is -nb. */
  ghost predicate Fit(t0: Tree, nb: int, v: int, rsize: int) {
    if v == 0 then rsize == TWO32 - nb else 0 <= rsize && Holds(t0, v, nb + rsize)
  }

  /** t is a part of the tree t0 that has a size z. */
  ghost predicate Part(t0: Tree, t: Tree) {
    forall x, s | Holds(t, x, s) :: Holds(t0, x, s)
  }

  /** Addresses are not null and sizes are those of chunks. */
  ghost predicate Sized(t: Tree) {
    forall x, s | Holds(t, x, s) :: x != 0 && 16 <= s < TWO32
  }

  /** Every size that fits is no better than the best fit met, or still in cur, or no better than
      the least of sub. */
  ghost predicate Covered(t0: Tree, cur: Tree, sub: Tree, nb: int, rsize: int) {
    forall z | HasSize(t0, z) && nb <= z ::
      nb + rsize <= z || HasSize(cur, z) || (sub.Node? && LeastSize(sub) <= z)
  }

  /** sub is responsible for sizes above those of the current node, which has [lo, lo + w). */
  ghost predicate Beyond(t0: Tree, sub: Tree, bound: int, nb: int) {
    Part(t0, sub) && forall z | HasSize(sub, z) :: bound <= z && nb < z
  }

  lemma PartChildren(t0: Tree, t: Tree)
    requires t.Node? && Part(t0, t)
    ensures Part(t0, t.left) && Part(t0, t.right) && Holds(t0, t.addr, t.size)
  {
    assert Holds(t, t.addr, t.size);
    forall x, s | Holds(t.left, x, s) ensures Holds(t0, x, s) {
      assert Holds(t, x, s);
    }
    forall x, s | Holds(t.right, x, s) ensures Holds(t0, x, s) {
      assert Holds(t, x, s);
    }
  }

  /** A size that fits leaves the difference, one that does not wraps and never beats -nb. */
  lemma RemFits(size: int, nb: int, rsize: int)
    requires 0 < nb < TWO32 && 16 <= size < TWO32 && rsize <= TWO32 - nb
    ensures nb <= size ==> Rem(size, nb) == size - nb
    ensures Rem(size, nb) < rsize ==> nb <= size
  {
  }

  /** One node visited: whether it becomes the best fit. */
  lemma Visit(t0: Tree, cur: Tree, sub: Tree, nb: int, v: int, rsize: int)
    requires 0 < nb < TWO32 && Sized(t0) && cur.Node? && Part(t0, cur)
    requires Fit(t0, nb, v, rsize) && Covered(t0, cur, sub, nb, rsize)
    ensures var better := Rem(cur.size, nb) < rsize;
            var v', r' := if better then cur.addr else v, if better then Rem(cur.size, nb) else rsize;
            && Fit(t0, nb, v', r') && r' <= rsize && 0 <= r'
            && (nb <= cur.size ==> nb + r' <= cur.size)
  {
    PartChildren(t0, cur);
    if v != 0 { assert Holds(t0, v, nb + rsize); }
    RemFits(cur.size, nb, rsize);
  }

  /** Going down: into the half nb is in, remembering the upper half when it is left out. */
  lemma Down(t0: Tree, cur: Tree, sub: Tree, lo: int, w: int, nb: int, rsize: int, rsize': int)
    requires cur.Node? && Part(t0, cur) && Trie(cur, lo, w) && lo <= nb < lo + w
    requires Covered(t0, cur, sub, nb, rsize) && rsize' <= rsize && (nb <= cur.size ==> nb + rsize' <= cur.size)
    requires Beyond(t0, sub, lo + w, nb)
    ensures var goLeft := nb < lo + w / 2;
            var cur' := if goLeft then cur.left else cur.right;
            var sub' := if goLeft && cur.right.Node? then cur.right else sub;
            && Part(t0, cur') && Covered(t0, cur', sub', nb, rsize')
            && Beyond(t0, sub', if goLeft then lo + w / 2 else lo + w, nb)
  {
    var goLeft := nb < lo + w / 2;
    var cur' := if goLeft then cur.left else cur.right;
    var sub' := if goLeft && cur.right.Node? then cur.right else sub;
    PartChildren(t0, cur);
    forall z | HasSize(cur.left, z) ensures z < lo + w / 2 {
      SizesInRange(cur.left, lo, w / 2, z);
    }
    forall z | HasSize(cur.right, z) ensures lo + w / 2 <= z < lo + w {
      SizesInRange(cur.right, lo + w / 2, w / 2, z);
    }
    hide Trie, Holds, Part;
    forall z | HasSize(t0, z) && nb <= z
      ensures nb + rsize' <= z || HasSize(cur', z) || (sub'.Node? && LeastSize(sub') <= z)
    {
      DownCovers(cur, sub, lo, w, nb, rsize, rsize', z);
    }
  }

  lemma DownCovers(cur: Tree, sub: Tree, lo: int, w: int, nb: int, rsize: int, rsize': int, z: int)
    requires cur.Node? && Trie(cur, lo, w) && lo <= nb < lo + w && nb <= z
    requires nb + rsize <= z || HasSize(cur, z) || (sub.Node? && LeastSize(sub) <= z)
    requires rsize' <= rsize && (nb <= cur.size ==> nb + rsize' <= cur.size)
    requires forall y | HasSize(sub, y) :: lo + w <= y
    ensures var goLeft := nb < lo + w / 2;
            var cur' := if goLeft then cur.left else cur.right;
            var sub' := if goLeft && cur.right.Node? then cur.right else sub;
            nb + rsize' <= z || HasSize(cur', z) || (sub'.Node? && LeastSize(sub') <= z)
  {
    var goLeft := nb < lo + w / 2;
    if sub.Node? { LeastSizeHeld(sub); }
    if cur.right.Node? {
      LeastSizeHeld(cur.right);
      SizesInRange(cur.right, lo + w / 2, w / 2, LeastSize(cur.right));
    }
    if HasSize(cur.right, z) {
      LeastSizeIsLeast(cur.right, lo + w / 2, w / 2, z);
    } else if HasSize(cur.left, z) {
      SizesInRange(cur.left, lo, w / 2, z);
    }
    hide Trie, LeastSize;
  }

  // ---------------------------------------------------------------- leftmost walk

  /** The least remainder met on the way to the leftmost leaf. */
  function LeastRem(t: Tree, nb: int): int {
    if t.Leaf? then TWO32
    else
      var r := LeastRem(LeftmostChild(t), nb);
      if Rem(t.size, nb) < r then Rem(t.size, nb) else r
  }

  /** When everything in the tree fits, that is the spare room of its least chunk. */
  lemma {:induction false} LeastRemIsLeast(t: Tree, nb: int)
    requires t.Node? && 0 < nb && forall z | HasSize(t, z) :: nb <= z < TWO32
    ensures LeastRem(t, nb) == LeastSize(t) - nb
  {
    var c := LeftmostChild(t);
    assert HasSize(t, t.size);
    if c.Node? {
      forall z | HasSize(c, z) ensures nb <= z < TWO32 {
        assert HasSize(t, z);
      }
      LeastRemIsLeast(c, nb);
    }
  }

  /** No size of t that fits is smaller than the best fit. */
  ghost predicate Best(t0: Tree, nb: int, v: int, rsize: int) {
    && Fit(t0, nb, v, rsize)
    && forall z | HasSize(t0, z) && nb <= z :: nb + rsize <= z
  }

  /** What remains to do after the first walk: the least of t, if it beats what was met. */
  ghost predicate Remains(t0: Tree, t: Tree, nb: int, v: int, rsize: int) {
    && Fit(t0, nb, v, rsize) && Part(t0, t)
    && (rsize == 0 || ((forall z | HasSize(t, z) :: nb <= z) && Covered(t0, Leaf, t, nb, rsize)))
  }

  lemma FinishWalk(t0: Tree, t: Tree, nb: int, v: int, rsize: int, v': int, rsize': int)
    requires 0 < nb < TWO32 && Sized(t0) && Remains(t0, t, nb, v, rsize)
    requires rsize' == if LeastRem(t, nb) < rsize then LeastRem(t, nb) else rsize
    requires rsize' == rsize ==> v' == v
    requires rsize' < rsize ==> exists s :: Holds(t, v', s) && Rem(s, nb) == rsize'
    ensures Best(t0, nb, v', rsize')
  {
    if rsize == 0 {
      LeastRemPositive(t, nb);
    } else if t.Node? {
      forall z | HasSize(t, z) ensures nb <= z < TWO32 {
        var x := HasSizeHolds(t, z);
        assert Holds(t0, x, z);
      }
      LeastRemIsLeast(t, nb);
      LeastSizeHeld(t);
      if rsize' < rsize {
        var s :| Holds(t, v', s) && Rem(s, nb) == rsize';
        HoldsHasSize(t, v', s);
        RemFits(s, nb, TWO32 - nb);
      }
    }
  }

  lemma {:induction false} LeastRemPositive(t: Tree, nb: int)
    ensures 0 <= LeastRem(t, nb) <= TWO32
  {
    if t.Node? { LeastRemPositive(LeftmostChild(t), nb); }
  }

  /** One step of the leftmost walk. */
  lemma LeftmostStep(t0: Tree, t: Tree, nb: int, v: int, rsize: int)
    requires t.Node?
    ensures var better := Rem(t.size, nb) < rsize;
            var r' := if better then Rem(t.size, nb) else rsize;
            (if LeastRem(t, nb) < rsize then LeastRem(t, nb) else rsize)
              == if LeastRem(LeftmostChild(t), nb) < r' then LeastRem(LeftmostChild(t), nb) else r'
  {
  }

  // ------------------------------------------------------------- over all treebins

  ghost predicate NoneFit(t: Tree, nb: int) {
    forall z | HasSize(t, z) :: z < nb
  }

  /** Best fit over all binned chunks that are kept in trees. */
  ghost predicate BestIn(binned: Sizes, nb: int, v: int, rsize: int) {
    && (if v == 0 then rsize == TWO32 - nb else v in binned && 0 <= rsize && 256 <= binned[v] == nb + rsize)
    && forall x | x in binned && 256 <= binned[x] && nb <= binned[x] :: v != 0 && nb + rsize <= binned[x]
  }

  lemma TreeSized(trees: seq<Tree>, binned: Sizes, i: nat)
    requires |trees| == NTREEBINS && i < NTREEBINS && TreeContents(trees[i], i, binned) && Blocks(binned)
    ensures Sized(trees[i])
  {
    forall x, s | Holds(trees[i], x, s) ensures x != 0 && 16 <= s < TWO32 {
      assert x in binned;
    }
  }

  /** The first bin whose chunks may fit. */
  predicate StartBin(nb: nat, idx: nat) {
    16 <= nb < TWO32 && (if nb < 256 then idx == 0 else idx == TreeIndex(nb))
  }

  lemma BinnedInTree(m: Mem, treemap: BinMap, trees: seq<Tree>, binned: Sizes, nb: nat, idx: nat, x: int)
    requires TreesOK(m, treemap, trees, binned) && Blocks(binned)
    requires StartBin(nb, idx)
    requires x in binned && 256 <= binned[x] && nb <= binned[x]
    ensures var j := TreeIndex(binned[x]); idx <= j < NTREEBINS && Holds(trees[j], x, binned[x])
  {
    assert InItsTree(trees, x, binned[x]);
    hide TreesOK, TreeIndex;
    if nb >= 256 && TreeIndex(binned[x]) < idx { TreeIndexMonotone(binned[x], nb); }
  }

  /** The best fit of the first tree that has one is the best of all: trees are ordered by size. */
  lemma FirstTreeBest(m: Mem, treemap: BinMap, trees: seq<Tree>, binned: Sizes, nb: nat, idx: nat, i: nat, v: int,
        rsize: int)
    requires TreesOK(m, treemap, trees, binned) && Blocks(binned)
    requires StartBin(nb, idx) && idx <= i < NTREEBINS
    requires forall j | idx <= j < i :: NoneFit(trees[j], nb)
    requires v != 0 && Best(trees[i], nb, v, rsize)
    ensures BestIn(binned, nb, v, rsize)
  {
    assert TreeContents(trees[i], i, binned);
    assert v in binned && binned[v] == nb + rsize && 256 <= nb + rsize && TreeIndex(nb + rsize) == i;
    hide TreeIndex, TreesOK, TreeContents, NoneFit, Holds, HasSize;
    forall x | x in binned && 256 <= binned[x] && nb <= binned[x] ensures nb + rsize <= binned[x] {
      FirstTreeBelow(m, treemap, trees, binned, nb, idx, i, v, rsize, x);
    }
  }

  lemma FirstTreeBelow(m: Mem, treemap: BinMap, trees: seq<Tree>, binned: Sizes, nb: nat, idx: nat, i: nat, v: int,
        rsize: int, x: int)
    requires TreesOK(m, treemap, trees, binned) && Blocks(binned)
    requires StartBin(nb, idx) && idx <= i < NTREEBINS
    requires forall j | idx <= j < i :: NoneFit(trees[j], nb)
    requires v != 0 && Best(trees[i], nb, v, rsize)
    requires 256 <= nb + rsize < TWO32 && TreeIndex(nb + rsize) == i && |trees| == NTREEBINS
    requires x in binned && 256 <= binned[x] && nb <= binned[x]
    ensures nb + rsize <= binned[x]
  {
    hide *;
    BinnedInTree(m, treemap, trees, binned, nb, idx, x);
    BlockBounds(binned, x);
    var j := TreeIndex(binned[x]);
    HoldsHasSize(trees[j], x, binned[x]);
    if j < i {
      NoneAt(trees[j], nb, binned[x]);
    } else if i < j {
      TreeIndexMonotone(nb + rsize, binned[x]);
    } else {
      BestAt(trees[i], nb, v, rsize, binned[x]);
    }
  }

  lemma BlockBounds(binned: Sizes, x: int)
    requires Blocks(binned) && x in binned
    ensures 0 < binned[x] < TWO32 && x != 0
  {
  }

  lemma NoneAt(t: Tree, nb: int, z: int)
    requires NoneFit(t, nb) && HasSize(t, z)
    ensures z < nb
  {
  }

  lemma BestAt(t: Tree, nb: int, v: int, rsize: int, z: int)
    requires Best(t, nb, v, rsize) && HasSize(t, z) && nb <= z
    ensures nb + rsize <= z
  {
  }

  lemma NoTreeBest(m: Mem, treemap: BinMap, trees: seq<Tree>, binned: Sizes, nb: nat, idx: nat, rsize: int)
    requires TreesOK(m, treemap, trees, binned) && Blocks(binned)
    requires 256 <= nb < TWO32 && idx == TreeIndex(nb) && rsize == TWO32 - nb
    requires forall j | idx <= j < NTREEBINS :: NoneFit(trees[j], nb)
    ensures BestIn(binned, nb, 0, rsize)
  {
    forall x | x in binned && 256 <= binned[x] && nb <= binned[x] ensures false {
      BinnedInTree(m, treemap, trees, binned, nb, idx, x);
      HoldsHasSize(trees[TreeIndex(binned[x])], x, binned[x]);
    }
  }

  /** Every size of a tree above the one nb belongs to fits. */
  lemma HigherTreeFits(trees: seq<Tree>, binned: Sizes, nb: nat, idx: nat, i: nat)
    requires |trees| == NTREEBINS && Blocks(binned)
    requires 256 <= nb < TWO32 && idx == TreeIndex(nb) && idx < i < NTREEBINS
    requires TreeContents(trees[i], i, binned) && Trie(trees[i], BinLo(i), BinWidth(i))
    ensures Remains(trees[i], trees[i], nb, 0, TWO32 - nb)
  {
    hide TreeIndex, BinLo, BinWidth, Trie;
    var t := trees[i];
    forall z | HasSize(t, z) ensures nb <= z && (t.Node? && LeastSize(t) <= z) {
      var x := HasSizeHolds(t, z);
      assert x in binned && binned[x] == z && TreeIndex(z) == i;
      TreeIndexMonotone(nb, z);
      LeastSizeIsLeast(t, BinLo(i), BinWidth(i), z);
    }
  }

  /** After the path of nb was searched, and the next non-empty bin chosen if that gave nothing:
      the least of tt in tree home is all that is left to compare. */
  ghost predicate Narrowed(trees: seq<Tree>, nb: int, idx: nat, home: nat, tt: Tree, v: int, rsize: int) {
    && |trees| == NTREEBINS && idx <= home < NTREEBINS
    && Sized(trees[home]) && Remains(trees[home], tt, nb, v, rsize)
    && (forall j | idx <= j < home :: NoneFit(trees[j], nb))
    && (tt.Leaf? && v == 0 ==> forall j | home <= j < NTREEBINS :: NoneFit(trees[j], nb))
  }

  lemma NothingMet(t0: Tree, nb: int, rsize: int)
    requires Sized(t0) && Remains(t0, Leaf, nb, 0, rsize) && nb < TWO32
    ensures NoneFit(t0, nb)
  {
    forall z | HasSize(t0, z) ensures z < nb {
      var x := HasSizeHolds(t0, z);
    }
  }

  lemma InOwnBin(m: Mem, treemap: BinMap, trees: seq<Tree>, binned: Sizes, nb: nat, idx: nat)
    requires TreesOK(m, treemap, trees, binned) && Blocks(binned)
    requires 256 <= nb < TWO32 && idx == TreeIndex(nb)
    ensures idx < NTREEBINS == 32 && |trees| == NTREEBINS && Rd(m, TreeBin(idx)) == Root(trees[idx])
    ensures Rep(m, trees[idx], TreeBin(idx), idx) && Trie(trees[idx], BinLo(idx), BinWidth(idx))
    ensures BinLo(idx) <= nb < BinLo(idx) + BinWidth(idx) && Sized(trees[idx])
  {
    TreeIndexBounds(nb);
    BinRange(nb);
    assert TreeBinOK(m, treemap[idx], trees[idx], idx) && TreeContents(trees[idx], idx, binned);
    hide TreeIndex, BinLo, BinWidth, TreeContents;
    TreeSized(trees, binned, idx);
  }

  /** The first walk met something, or left something to compare. */
  lemma SomethingMet(trees: seq<Tree>, nb: int, idx: nat, tt: Tree, v: int, rsize: int)
    requires |trees| == NTREEBINS && idx < NTREEBINS && Sized(trees[idx]) && Remains(trees[idx], tt, nb, v, rsize)
    requires tt.Node? || v != 0
    ensures Narrowed(trees, nb, idx, idx, tt, v, rsize)
  {
  }

  /** The bin that the least bit of left_bits(idx2bit(idx)) & treemap selects. */
  lemma NextBin(m: Mem, treemap: BinMap, trees: seq<Tree>, binned: Sizes, nb: nat, idx: nat, rsize: int)
    requires TreesOK(m, treemap, trees, binned) && Blocks(binned)
    requires 256 <= nb < TWO32 && idx == TreeIndex(nb) && idx < NTREEBINS && rsize == TWO32 - nb
    requires NoneFit(trees[idx], nb) && !IsZero(Above(treemap, idx))
    ensures var i := TrailingZeros(LeastBit(Above(treemap, idx)));
            && i < NTREEBINS && Rd(m, TreeBin(i)) == Root(trees[i]) && Rep(m, trees[i], TreeBin(i), i)
            && Narrowed(trees, nb, idx, i, trees[i], 0, rsize)
  {
    var left := Above(treemap, idx);
    var i := TrailingZeros(LeastBit(left));
    FirstMarked(left);
    AboveMarks(treemap, idx);
    hide Above, TrailingZeros, LeastBit, TreeIndex, Trie, BinLo, BinWidth, Remains;
    assert TreeBinOK(m, treemap[i], trees[i], i) && TreeContents(trees[i], i, binned);
    TreeSized(trees, binned, i);
    HigherTreeFits(trees, binned, nb, idx, i);
    forall j | idx < j < i ensures NoneFit(trees[j], nb) {
      assert TreeBinOK(m, treemap[j], trees[j], j) && !left[j];
    }
    hide *;
    MakeNarrowed(trees, nb, idx, i, rsize);
  }

  lemma MakeNarrowed(trees: seq<Tree>, nb: int, idx: nat, i: nat, rsize: int)
    requires |trees| == NTREEBINS && idx < i < NTREEBINS && Sized(trees[i]) && trees[i].Node?
    requires Remains(trees[i], trees[i], nb, 0, rsize)
    requires NoneFit(trees[idx], nb) && forall j | idx < j < i :: NoneFit(trees[j], nb)
    ensures Narrowed(trees, nb, idx, i, trees[i], 0, rsize)
  {
  }

  lemma NoNextBin(m: Mem, treemap: BinMap, trees: seq<Tree>, binned: Sizes, nb: nat, idx: nat, rsize: int)
    requires TreesOK(m, treemap, trees, binned) && Blocks(binned)
    requires 256 <= nb < TWO32 && idx == TreeIndex(nb) && idx < NTREEBINS && Sized(trees[idx])
    requires Remains(trees[idx], Leaf, nb, 0, rsize) && IsZero(Above(treemap, idx))
    ensures Narrowed(trees, nb, idx, idx, Leaf, 0, rsize)
  {
    NothingMet(trees[idx], nb, rsize);
    AboveMarks(treemap, idx);
    hide Above, TreeIndex, Remains;
    forall j | idx <= j < NTREEBINS ensures NoneFit(trees[j], nb) {
      if j > idx { assert TreeBinOK(m, treemap[j], trees[j], j) && !Above(treemap, idx)[j]; }
    }
  }

  /** The whole search finds the best fit of all trees. */
  lemma SearchEnds(m: Mem, treemap: BinMap, trees: seq<Tree>, binned: Sizes, nb: nat, idx: nat, home: nat, tt: Tree,
        v: int, rsize: int, v': int, rsize': int)
    requires TreesOK(m, treemap, trees, binned) && Blocks(binned)
    requires 256 <= nb < TWO32 && idx == TreeIndex(nb) && Narrowed(trees, nb, idx, home, tt, v, rsize)
    requires rsize' == if LeastRem(tt, nb) < rsize then LeastRem(tt, nb) else rsize
    requires rsize' == rsize ==> v' == v
    requires rsize' < rsize ==> exists s :: Holds(tt, v', s) && Rem(s, nb) == rsize'
    ensures BestIn(binned, nb, v', rsize')
  {
    hide *;
    NarrowedParts(trees, nb, idx, home, tt, v, rsize);
    FinishWalk(trees[home], tt, nb, v, rsize, v', rsize');
    StartLarge(nb, idx);
    if v' != 0 {
      FirstTreeBest(m, treemap, trees, binned, nb, idx, home, v', rsize');
    } else {
      NullMet(trees[home], tt, nb, v, rsize, v', rsize');
      NoTreeBest(m, treemap, trees, binned, nb, idx, rsize');
    }
  }

  lemma StartLarge(nb: nat, idx: nat)
    requires 256 <= nb < TWO32 && idx == TreeIndex(nb)
    ensures StartBin(nb, idx)
  {
  }

  lemma NarrowedParts(trees: seq<Tree>, nb: int, idx: nat, home: nat, tt: Tree, v: int, rsize: int)
    requires Narrowed(trees, nb, idx, home, tt, v, rsize)
    ensures |trees| == NTREEBINS && idx <= home < NTREEBINS == 32
    ensures Sized(trees[home]) && Remains(trees[home], tt, nb, v, rsize)
    ensures forall j | idx <= j < home :: NoneFit(trees[j], nb)
    ensures tt.Leaf? && v == 0 ==> forall j | idx <= j < NTREEBINS :: NoneFit(trees[j], nb)
  {
  }

  lemma NullMet(t0: Tree, tt: Tree, nb: int, v: int, rsize: int, v': int, rsize': int)
    requires 0 < nb < TWO32 && Sized(t0) && Remains(t0, tt, nb, v, rsize) && Best(t0, nb, v', rsize') && v' == 0
    requires rsize' == rsize ==> v' == v
    requires rsize' < rsize ==> exists s :: Holds(tt, v', s) && Rem(s, nb) == rsize'
    requires rsize' <= rsize
    ensures tt.Leaf? && v == 0 && rsize' == TWO32 - nb
  {
    assert rsize' == TWO32 - nb;
    assert rsize' == rsize;
    if tt.Node? {
      assert Holds(tt, tt.addr, tt.size) && Holds(t0, tt.addr, tt.size);
      HoldsHasSize(t0, tt.addr, tt.size);
      HoldsHasSize(tt, tt.addr, tt.size);
    }
  }

  // ------------------------------------------------------- the least of all treebins

  /** The bin that the least bit of treemap selects holds the least tree chunk. */
  lemma FirstBin(m: Mem, treemap: BinMap, trees: seq<Tree>, binned: Sizes, nb: nat)
    requires TreesOK(m, treemap, trees, binned) && Blocks(binned)
    requires 16 <= nb < 256 && !IsZero(treemap)
    ensures var i := TrailingZeros(LeastBit(treemap));
            && i < NTREEBINS == |trees| && Rd(m, TreeBin(i)) == Root(trees[i]) && Rep(m, trees[i], TreeBin(i), i)
            && Root(trees[i]) != 0 && Sized(trees[i])
            && (forall j | 0 <= j < i :: NoneFit(trees[j], nb))
            && (forall z | HasSize(trees[i], z) :: 256 <= z < TWO32)
            && Trie(trees[i], BinLo(i), BinWidth(i))
  {
    var i := TrailingZeros(LeastBit(treemap));
    FirstMarked(treemap);
    hide TrailingZeros, LeastBit, TreeIndex, Trie, BinLo, BinWidth;
    assert TreeBinOK(m, treemap[i], trees[i], i) && TreeContents(trees[i], i, binned);
    TreeSized(trees, binned, i);
    forall j | 0 <= j < i ensures NoneFit(trees[j], nb) {
      assert TreeBinOK(m, treemap[j], trees[j], j);
    }
    forall z | HasSize(trees[i], z) ensures 256 <= z < TWO32 {
      var x := HasSizeHolds(trees[i], z);
    }
  }

  /** The root and the leftmost walk below it give the least chunk of the tree. */
  lemma LeastOfTree(t: Tree, lo: int, w: int, nb: int, v: int, rsize: int)
    requires t.Node? && Sized(t) && 0 < nb < 256 && Trie(t, lo, w) && forall z | HasSize(t, z) :: 256 <= z < TWO32
    requires rsize == var r := LeastRem(LeftmostChild(t), nb); if r < Rem(t.size, nb) then r else Rem(t.size, nb)
    requires rsize == Rem(t.size, nb) ==> v == t.addr
    requires rsize < Rem(t.size, nb) ==> exists s :: Holds(LeftmostChild(t), v, s) && Rem(s, nb) == rsize
    ensures Best(t, nb, v, rsize) && v != 0
  {
    assert HasSize(t, t.size) && Holds(t, t.addr, t.size);
    hide Trie;
    LeastRemIsLeast(t, nb);
    LeastRemRoot(t, nb);
    hide HasSize, LeastRem, LeastSize, Rem;
    LeastHeld(t, nb, v, rsize);
    forall z | HasSize(t, z) && nb <= z ensures nb + rsize <= z {
      LeastSizeIsLeast(t, lo, w, z);
    }
  }

  lemma LeastRemRoot(t: Tree, nb: int)
    requires t.Node?
    ensures LeastRem(t, nb) == var r := LeastRem(LeftmostChild(t), nb); if r < Rem(t.size, nb) then r
              else Rem(t.size, nb)
  {
  }

  lemma LeastHeld(t: Tree, nb: int, v: int, rsize: int)
    requires t.Node? && Sized(t) && 0 < nb < 256 && (forall z | HasSize(t, z) :: 256 <= z < TWO32)
    requires rsize <= Rem(t.size, nb)
    requires rsize == Rem(t.size, nb) ==> v == t.addr
    requires rsize < Rem(t.size, nb) ==> exists s :: Holds(LeftmostChild(t), v, s) && Rem(s, nb) == rsize
    ensures Holds(t, v, nb + rsize) && v != 0 && 0 <= rsize
  {
    if rsize < Rem(t.size, nb) {
      var s :| Holds(LeftmostChild(t), v, s) && Rem(s, nb) == rsize;
      assert Holds(t, v, s);
      HoldsHasSize(t, v, s);
      RemFits(s, nb, TWO32 - nb);
    } else {
      assert Holds(t, t.addr, t.size) && HasSize(t, t.size);
      RemFits(t.size, nb, TWO32 - nb);
    }
  }

  /** The bin of a tree chunk is marked. */
  lemma TreeMarked(m: Mem, treemap: BinMap, trees: seq<Tree>, binned: Sizes, x: int)
    requires TreesOK(m, treemap, trees, binned) && x in binned && 256 <= binned[x]
    ensures var i := TreeIndex(binned[x]); 0 <= i < 32 && treemap[i]
  {
    hide TreeIndex;
    assert InItsTree(trees, x, binned[x]);
    var i := TreeIndex(binned[x]);
    assert TreeBinOK(m, treemap[i], trees[i], i);
  }

  /** The bin of a small chunk is marked. */
  lemma SmallMarked(m: Mem, smallmap: BinMap, small: seq<seq<int>>, binned: Sizes, idx: nat, x: int)
    requires SmallOK(m, smallmap, small, binned) && idx < 32 && x in binned && 0 <= binned[x] < 256
    ensures var j := binned[x] / 8; smallmap[j] && (j >= idx ==> ShiftRight(smallmap, idx)[j - idx])
  {
    var j := binned[x] / 8;
    assert x in small[j];
  }

  /** An empty treemap: no chunk of a tree size is binned. */
  lemma NoTrees(m: Mem, treemap: BinMap, trees: seq<Tree>, binned: Sizes, x: int)
    requires TreesOK(m, treemap, trees, binned) && IsZero(treemap) && x in binned
    ensures binned[x] < 256
  {
    if binned[x] >= 256 { TreeMarked(m, treemap, trees, binned, x); }
  }

  /** No bit at or above idx: no small chunk of that size or more is binned. */
  lemma NoSmallAbove(m: Mem, smallmap: BinMap, small: seq<seq<int>>, binned: Sizes, idx: nat, x: int)
    requires SmallOK(m, smallmap, small, binned) && idx < 32 && IsZero(ShiftRight(smallmap, idx))
    requires x in binned && 0 <= binned[x] < 256
    ensures binned[x] < 8 * idx
  {
    SmallMarked(m, smallmap, small, binned, idx, x);
  }
}
