/** Taking a chunk out of its treebin: the memory unlink_large_chunk leaves behind. */
module BinUnlink {
  import opened Words
  import opened Rings
  import opened Tries
  import opened TrieMemory
  import opened TrieUnlink
  import opened BinIndex
  import opened BinMaps
  import opened Bins

  /** The word RP and the subtree below the child of x that is searched for a replacement leaf. */
  function LeafSlot(t: Tree): int
    requires t.Node? && !IsLeafNode(t)
  {
    if t.right.Node? then RpSlot(t.right, t.addr + 20) else RpSlot(t.left, t.addr + 16)
  }

  /** Memory when the replacement of the tree member t.addr has been cut loose. */
  function DetachMem(m: Mem, t: Tree): Mem
    requires t.Node?
  {
    if t.ring != [] then Join(m, Fd(m, t.addr), Bk(m, t.addr))
    else if IsLeafNode(t) then m
    else m[LeafSlot(t) := 0]
  }

  function UnlinkLargeMem(m: Mem, t: Tree, x: int, s: int, i: nat): Mem
    requires i < NTREEBINS
  {
    var lo, w, h := BinLo(i), BinWidth(i), TreeBin(i);
    var sub := SubAt(t, s, lo, w);
    if t.Leaf? || sub.Leaf? then m
    else if sub.addr != x then Join(m, Fd(m, x), Bk(m, x))
    else Unlinked(DetachMem(m, sub), LinkTo(m, t, h, s, lo, w, h, x), RemoveAt(sub, x), x, ParentAt(t, h, s, lo, w))
  }

  /** The replacement is ready, whichever way it was found. */
  lemma DetachReady(m: Mem, t: Tree, parent: int, idx: int, lo: int, w: int)
    requires t.Node? && Rep(m, t, parent, idx) && Spread(t) && Trie(t, lo, w)
    ensures var n := RemoveAt(t, t.addr);
            && (n.Node? ==> AdoptReady(DetachMem(m, t), n, t.addr, idx) && AdoptShape(n, t.addr))
            && (n.Node? ==> Root(n) != 0)
            && (n.Leaf? <==> t.ring == [] && IsLeafNode(t))
  {
    var n := RemoveAt(t, t.addr);
    if n.Node? { RemainderShape(m, t, parent, idx, lo, w); }
    assert n.Node? && AdoptReady(DetachMem(m, t), n, t.addr, idx) ==> n.addr != 0;
    hide AdoptShape, AdoptReady, Spread, Rep, Trie, Join, RpSlot;
    if t.ring != [] {
      ChainReady(m, t, parent, idx, lo, w);
    } else if !IsLeafNode(t) {
      LeafReady(m, t, parent, idx, lo, w, t.right.Leaf?);
    }
  }

  /** Cutting the replacement loose writes only link words of the subtree. */
  lemma DetachWords(m: Mem, t: Tree, parent: int, idx: int, lo: int, w: int, a: int)
    requires t.Node? && Rep(m, t, parent, idx) && Spread(t) && Trie(t, lo, w)
    requires Beside(t, a)
    ensures Rd(DetachMem(m, t), a) == Rd(m, a)
  {
    assert Holds(t, t.addr, t.size);
    if t.ring != [] {
      ChainReady(m, t, parent, idx, lo, w);
      assert Holds(t, Fd(m, t.addr), t.size) && Holds(t, Bk(m, t.addr), t.size);
    } else if !IsLeafNode(t) {
      assert LeafSlot(t) == RpSlot(t, 0);
      var p, o, s := RpInside(t, 0, lo, w);
    }
  }

  lemma DetachFrame(m: Mem, t: Tree, parent: int, idx: int, lo: int, w: int, y: int)
    requires t.Node? && Rep(m, t, parent, idx) && Spread(t) && Trie(t, lo, w)
    requires AllApart(t, y)
    ensures SameNode(m, DetachMem(m, t), y)
  {
    hide DetachMem, Rep, Spread, Trie, Beside;
    BesideNode(t, y);
    DetachWords(m, t, parent, idx, lo, w, y + 4);
    DetachWords(m, t, parent, idx, lo, w, y + 8);
    DetachWords(m, t, parent, idx, lo, w, y + 12);
    DetachWords(m, t, parent, idx, lo, w, y + 16);
    DetachWords(m, t, parent, idx, lo, w, y + 20);
    DetachWords(m, t, parent, idx, lo, w, y + 24);
    DetachWords(m, t, parent, idx, lo, w, y + 28);
  }

  lemma ReadyToUnlink(m: Mem, t: Tree, parent: int, idx: int, s: int, lo: int, w: int, h: int)
    requires t.Node? && Rep(m, t, parent, idx) && Spread(t) && Trie(t, lo, w) && AllApart(t, h - 16)
    requires SubAt(t, s, lo, w).Node?
    ensures UnlinkReady(m, DetachMem(m, SubAt(t, s, lo, w)), t, parent, idx, s, lo, w, h)
  {
    var sub, xp := SubAt(t, s, lo, w), ParentAt(t, parent, s, lo, w);
    var n := RemoveAt(sub, sub.addr);
    SubHeld(m, t, parent, idx, s, lo, w);
    var lo', w' := SubTrie(t, s, lo, w);
    DetachReady(m, sub, xp, idx, lo', w');
    assert Chained(sub, sub.addr);
    forall y | AllApart(sub, y) ensures SameNode(m, DetachMem(m, sub), y) {
      DetachFrame(m, sub, xp, idx, lo', w', y);
    }
    forall y, z | Holds(n, y, z) ensures Holds(sub, y, z) {
      RemoveAtHolds(sub, sub.addr, lo', w', y, z);
    }
  }

  /** The bin x leaves, afterwards. */
  lemma UnlinkTreeOK(m: Mem, t: Tree, x: int, s: int, i: nat, marked: bool)
    requires i < NTREEBINS && TreeBinOK(m, marked, t, i) && Holds(t, x, s)
    requires Spread(t) && AllApart(t, TreeBin(i) - 16)
    ensures var t' := Remove(t, x, s, BinLo(i), BinWidth(i));
            TreeBinOK(UnlinkLargeMem(m, t, x, s, i), t'.Node?, t', i)
  {
    var lo, w, h := BinLo(i), BinWidth(i), TreeBin(i);
    hide BinLo, BinWidth;
    var sub := SubAt(t, s, lo, w);
    var t' := Remove(t, x, s, lo, w);
    var m' := UnlinkLargeMem(m, t, x, s, i);
    RemoveTrie(t, x, s, lo, w);
    RemoveIsReplace(t, x, s, lo, w);
    if sub.addr != x {
      ChainedUnlinked(m, t, h, i, x, s, lo, w);
      assert Rd(m', h) == Rd(m, h) by {
        assert Apart(Fd(m, x), h - 16) && Apart(Bk(m, x), h - 16);
      }
    } else {
      ReadyToUnlink(m, t, h, i, s, lo, w, h);
      HoldsHasSize(t, x, s);
      MemberUnlinked(m, DetachMem(m, sub), t, h, i, s, lo, w, h);
      UnlinkedHeader(m, t, i, s);
    }
    RootAfter(t, x, s, lo, w);
  }

  lemma RootAfter(t: Tree, x: int, s: int, lo: int, w: int)
    requires t.Node?
    ensures t.size != s ==> Root(Remove(t, x, s, lo, w)) == t.addr && Remove(t, x, s, lo, w).Node?
    ensures t.size == s && x != t.addr ==> Root(Remove(t, x, s, lo, w)) == t.addr && Remove(t, x, s, lo, w).Node?
  {
  }

  lemma AdoptWords(m: Mem, n: Tree, x: int, idx: int, xp: int, a: int)
    requires AdoptReady(m, n, x, idx) && AdoptShape(n, x)
    requires forall y, z | Holds(n, y, z) :: a < y + 8 || y + 32 <= a
    ensures Rd(Adopt(m, x, n.addr, xp), a) == Rd(m, a)
  {
    var r := n.addr;
    var m1 := m[r + 24 := xp];
    var m2 := Hang(m1, r, Root(n.left), 0);
    ShapeNodes(n, x);
    assert Holds(n, r, n.size);
    if n.left.Node? { assert Holds(n, n.left.addr, n.left.size); }
    if n.right.Node? { assert Holds(n, n.right.addr, n.right.size); }
    StoreApart(m, r, 24, xp, x);
    HangFrame(m1, r, Root(n.left), 0, x);
    hide Holds;
    HangWord(m1, r, Root(n.left), 0, a);
    HangWord(m2, r, Root(n.right), 1, a);
  }

  lemma HangWord(m: Mem, r: int, c: int, j: int, a: int)
    requires j == 0 || j == 1
    requires a < r + 8 || r + 32 <= a
    requires c != 0 ==> a < c + 8 || c + 32 <= a
    ensures Rd(Hang(m, r, c, j), a) == Rd(m, a)
  {
  }

  /** The bin's own word after a member left: still its root, or the replacement if x was the root. */
  lemma UnlinkedHeader(m: Mem, t: Tree, i: nat, s: int)
    requires i < NTREEBINS
    requires var lo, w, h := BinLo(i), BinWidth(i), TreeBin(i);
             && SubAt(t, s, lo, w).Node?
             && UnlinkReady(m, DetachMem(m, SubAt(t, s, lo, w)), t, h, i, s, lo, w, h)
             && Rd(m, h) == Root(t) && HasSize(t, s)
    ensures var lo, w, h := BinLo(i), BinWidth(i), TreeBin(i);
            var sub := SubAt(t, s, lo, w);
            Rd(UnlinkLargeMem(m, t, sub.addr, s, i), h) == Root(Remove(t, sub.addr, s, lo, w))
  {
    var lo, w, h := BinLo(i), BinWidth(i), TreeBin(i);
    var sub, xp := SubAt(t, s, lo, w), ParentAt(t, h, s, lo, w);
    var x := sub.addr;
    var n := RemoveAt(sub, x);
    var m1 := DetachMem(m, sub);
    var link := LinkTo(m, t, h, s, lo, w, h, x);
    var m2 := m1[link := Root(n)];
    SubHeld(m, t, h, i, s, lo, w);
    var lo', w' := SubTrie(t, s, lo, w);
    forall y, z | Holds(t, y, z) ensures h < y + 8 || y + 32 <= h { assert Apart(y, h - 16); }
    DetachWords(m, sub, xp, i, lo', w', h);
    LinkStored(m, m1, t, h, i, s, lo, w, h);
    assert Rd(m2, h) == if t.size == s then Root(n) else Rd(m, h) by {
      if t.size != s {
        var z := ParentHeld(t, h, s, lo, w);
        assert Apart(xp, h - 16);
      }
    }
    if n.Node? { AdoptWords(m2, n, x, i, xp, h); }
    RootAfter(t, x, s, lo, w);
  }

  /** Beside the tree's nodes and the bin's own word, unlinking writes nothing. */
  lemma UnlinkLargeWords(m: Mem, t: Tree, x: int, s: int, i: nat, a: int)
    requires i < NTREEBINS && Rep(m, t, TreeBin(i), i) && Trie(t, BinLo(i), BinWidth(i)) && Holds(t, x, s)
    requires Spread(t) && AllApart(t, TreeBin(i) - 16)
    requires Beside(t, a) && a != TreeBin(i)
    ensures Rd(UnlinkLargeMem(m, t, x, s, i), a) == Rd(m, a)
  {
    var lo, w, h := BinLo(i), BinWidth(i), TreeBin(i);
    hide BinLo, BinWidth;
    var sub, xp := SubAt(t, s, lo, w), ParentAt(t, h, s, lo, w);
    RemoveIsReplace(t, x, s, lo, w);
    if sub.addr != x {
      ChainedUnlinked(m, t, h, i, x, s, lo, w);
    } else {
      var n := RemoveAt(sub, x);
      var m1 := DetachMem(m, sub);
      var link := LinkTo(m, t, h, s, lo, w, h, x);
      SubHeld(m, t, h, i, s, lo, w);
      var lo', w' := SubTrie(t, s, lo, w);
      ReadyToUnlink(m, t, h, i, s, lo, w, h);
      DetachWords(m, sub, xp, i, lo', w', a);
      LinkStored(m, m1, t, h, i, s, lo, w, h);
      if t.size != s { var z := ParentHeld(t, h, s, lo, w); }
      if n.Node? { AdoptWords(m1[link := Root(n)], n, x, i, xp, a); }
    }
  }

  lemma UnlinkNode(m: Mem, t: Tree, x: int, s: int, i: nat, y: int)
    requires i < NTREEBINS && Rep(m, t, TreeBin(i), i) && Trie(t, BinLo(i), BinWidth(i)) && Holds(t, x, s)
    requires Spread(t) && AllApart(t, TreeBin(i) - 16)
    requires AllApart(t, y) && HEAP_BASE <= y
    ensures SameNode(m, UnlinkLargeMem(m, t, x, s, i), y)
  {
    hide Rep, Trie, Spread, BinLo, BinWidth, UnlinkLargeMem, Beside;
    BesideNode(t, y);
    UnlinkLargeWords(m, t, x, s, i, y + 4);
    UnlinkLargeWords(m, t, x, s, i, y + 8);
    UnlinkLargeWords(m, t, x, s, i, y + 12);
    UnlinkLargeWords(m, t, x, s, i, y + 16);
    UnlinkLargeWords(m, t, x, s, i, y + 20);
    UnlinkLargeWords(m, t, x, s, i, y + 24);
    UnlinkLargeWords(m, t, x, s, i, y + 28);
  }

  lemma UnlinkLargeChange(m: Mem, t: Tree, binned: Sizes, x: int, s: int, i: nat)
    requires i < NTREEBINS && Rep(m, t, TreeBin(i), i) && Trie(t, BinLo(i), BinWidth(i)) && Holds(t, x, s)
    requires Spread(t) && AllApart(t, TreeBin(i) - 16) && TreeContents(t, i, binned)
    ensures LargeChange(m, UnlinkLargeMem(m, t, x, s, i), binned)
  {
    hide Rep, Trie, Spread, BinLo, BinWidth, UnlinkLargeMem;
    forall a ensures LargeLink(binned, a) || Rd(UnlinkLargeMem(m, t, x, s, i), a) == Rd(m, a) {
      if !LargeLink(binned, a) {
        forall y, z | Holds(t, y, z) ensures a < y + 8 || y + 32 <= a {
          assert y in binned && binned[y] == z && 256 <= z;
        }
        UnlinkLargeWords(m, t, x, s, i, a);
      }
    }
  }

  lemma UnlinkOtherTree(m: Mem, trees: seq<Tree>, binned: Sizes, x: int, s: int, i: nat, j: int, marked: bool)
    requires |trees| == NTREEBINS && i < NTREEBINS && 0 <= j < NTREEBINS && i != j
    requires Rep(m, trees[i], TreeBin(i), i) && Trie(trees[i], BinLo(i), BinWidth(i)) && Holds(trees[i], x, s)
    requires Spread(trees[i]) && AllApart(trees[i], TreeBin(i) - 16) && TreeContents(trees[i], i, binned)
    requires TreeBinOK(m, marked, trees[j], j) && TreeContents(trees[j], j, binned)
    requires Blocks(binned)
    ensures TreeBinOK(UnlinkLargeMem(m, trees[i], x, s, i), marked, trees[j], j)
  {
    var t := trees[i];
    var m' := UnlinkLargeMem(m, t, x, s, i);
    hide UnlinkLargeMem, TreeIndex, BinLo, BinWidth;
    forall y, z | Holds(trees[j], y, z) ensures SameNode(m, m', y) {
      TreesApart(trees, binned, i, j, y, z);
      hide Rep, TreeBinOK, Spread, Trie;
      UnlinkNode(m, t, x, s, i, y);
    }
    forall u, z | Holds(t, u, z) ensures TreeBin(j) < u + 8 { assert u in binned; }
    hide Rep, Trie, Spread;
    UnlinkLargeWords(m, t, x, s, i, TreeBin(j));
    RepFrame(m, m', trees[j], TreeBin(j), j);
  }

  lemma UnlinkLargeOK(m: Mem, treemap: BinMap, trees: seq<Tree>, binned: Sizes, x: int)
    requires TreesOK(m, treemap, trees, binned) && Blocks(binned)
    requires x in binned && 256 <= binned[x]
    ensures var s := binned[x]; var i := TreeIndex(s);
            && |trees| == NTREEBINS && 0 <= i < NTREEBINS && Holds(trees[i], x, s)
            && var m' := UnlinkLargeMem(m, trees[i], x, s, i);
               var t' := Remove(trees[i], x, s, BinLo(i), BinWidth(i));
            && TreesOK(m', if t'.Leaf? then Clear(treemap, i) else treemap, trees[i := t'], binned - {x})
            && LargeChange(m, m', binned)
  {
    var s := binned[x];
    var i := TreeIndex(s);
    assert InItsTree(trees, x, s);
    assert TreeBinOK(m, treemap[i], trees[i], i) && TreeContents(trees[i], i, binned);
    hide TreeIndex, BinLo, BinWidth, UnlinkLargeMem, Remove;
    var t := trees[i];
    var t' := Remove(t, x, s, BinLo(i), BinWidth(i));
    var m' := UnlinkLargeMem(m, t, x, s, i);
    var treemap', trees', binned' := if t'.Leaf? then Clear(treemap, i) else treemap, trees[i := t'], binned - {x};
    MarkMarks(treemap, i);
    TreeSpread(m, treemap, trees, binned, i);
    UnlinkTreeOK(m, t, x, s, i, treemap[i]);
    UnlinkLargeChange(m, t, binned, x, s, i);
    forall j | 0 <= j < NTREEBINS ensures TreeBinOK(m', treemap'[j], trees'[j], j) {
      if j != i {
        assert TreeBinOK(m, treemap[j], trees[j], j) && TreeContents(trees[j], j, binned);
        UnlinkOtherTree(m, trees, binned, x, s, i, j, treemap[j]);
      } else {
        assert treemap[i] by { assert t.Node?; }
      }
    }
    RemoveContents(trees, binned, x, i);
    hide TreeBinOK, TreeContents, InItsTree, LargeChange;
  }

  lemma RemoveContents(trees: seq<Tree>, binned: Sizes, x: int, i: nat)
    requires |trees| == NTREEBINS && i < NTREEBINS && x in binned && 256 <= binned[x] && TreeIndex(binned[x]) == i
    requires Trie(trees[i], BinLo(i), BinWidth(i)) && Holds(trees[i], x, binned[x])
    requires forall j | 0 <= j < NTREEBINS :: TreeContents(trees[j], j, binned)
    requires forall y | y in binned && 256 <= binned[y] :: InItsTree(trees, y, binned[y])
    ensures var trees', binned' := trees[i := Remove(trees[i], x, binned[x], BinLo(i), BinWidth(i))], binned - {x};
            && (forall j | 0 <= j < NTREEBINS :: TreeContents(trees'[j], j, binned'))
            && (forall y | y in binned' && 256 <= binned'[y] :: InItsTree(trees', y, binned'[y]))
  {
    var t, s := trees[i], binned[x];
    var lo, w := BinLo(i), BinWidth(i);
    var trees', binned' := trees[i := Remove(t, x, s, lo, w)], binned - {x};
    hide TreeIndex, BinLo, BinWidth, Remove;
    forall j | 0 <= j < NTREEBINS ensures TreeContents(trees'[j], j, binned') {
      assert TreeContents(trees[j], j, binned);
      forall y, z | Holds(trees'[j], y, z)
        ensures y in binned' && binned'[y] == z && 256 <= z && TreeIndex(z) == j
      {
        if j == i { RemoveHolds(t, x, s, lo, w, y, z); }
      }
    }
    forall y | y in binned' && 256 <= binned'[y] ensures InItsTree(trees', y, binned'[y]) {
      var z := binned'[y];
      assert InItsTree(trees, y, z);
      if TreeIndex(z) == i { RemoveHolds(t, x, s, lo, w, y, z); }
    }
  }

  // ------------------------------------------------------------ for the code's own steps

  /** What the second half of unlink_large_chunk still reads of x, its parent and its bin. */
  lemma DetachKeeps(m: Mem, t: Tree, i: nat, s: int)
    requires i < NTREEBINS && Rep(m, t, TreeBin(i), i) && Spread(t) && Trie(t, BinLo(i), BinWidth(i))
    requires t.Node? && AllApart(t, TreeBin(i) - 16)
    requires SubAt(t, s, BinLo(i), BinWidth(i)).Node?
    ensures var lo, w, h := BinLo(i), BinWidth(i), TreeBin(i);
            var sub, xp := SubAt(t, s, lo, w), ParentAt(t, h, s, lo, w);
            var m1 := DetachMem(m, sub);
            && Parent(m, sub.addr) == xp && xp != 0
            && Index(m1, sub.addr) == i
            && Rd(m1, h) == Rd(m, h)
            && (t.size != s ==> Child0(m1, xp) == Child0(m, xp) && sub.addr != t.addr)
  {
    var lo, w, h := BinLo(i), BinWidth(i), TreeBin(i);
    hide BinLo, BinWidth;
    var sub, xp := SubAt(t, s, lo, w), ParentAt(t, h, s, lo, w);
    SubHeld(m, t, h, i, s, lo, w);
    var lo', w' := SubTrie(t, s, lo, w);
    assert Beside(t, h) by { assert forall y, z | Holds(t, y, z) :: Apart(y, h - 16); }
    DetachWords(m, sub, xp, i, lo', w', h);
    DetachIndex(m, sub, xp, i, lo', w');
    if t.size != s {
      ParentApart(m, t, h, i, s, lo, w);
      var z := ParentHeld(t, h, s, lo, w);
      RepSize(m, t, h, i, xp, z);
      DetachFrame(m, sub, xp, i, lo', w', xp);
      SubNotRoot(m, t, h, i, s, lo, w);
    }
  }

  lemma SubNotRoot(m: Mem, t: Tree, parent: int, idx: int, s: int, lo: int, w: int)
    requires t.Node? && Rep(m, t, parent, idx) && t.size != s
    requires Spread(t) && Trie(t, lo, w) && SubAt(t, s, lo, w).Node?
    ensures SubAt(t, s, lo, w).addr != t.addr
  {
    var goLeft := s < lo + w / 2;
    var half := Half(t, goLeft);
    assert SubAt(t, s, lo, w) == SubAt(half, s, if goLeft then lo else lo + w / 2, w / 2);
    var sub := SubAt(t, s, lo, w);
    SubHeld(m, half, t.addr, idx, s, if goLeft then lo else lo + w / 2, w / 2) by { SpreadChildren(t); }
    assert Holds(sub, sub.addr, sub.size);
    assert Holds(half, sub.addr, sub.size);
    ChildDistinct(m, t, parent, idx, sub.addr, sub.size);
  }

  lemma DetachIndex(m: Mem, t: Tree, parent: int, idx: int, lo: int, w: int)
    requires t.Node? && Rep(m, t, parent, idx) && Spread(t) && Trie(t, lo, w)
    ensures Index(DetachMem(m, t), t.addr) == idx
  {
    var x := t.addr;
    assert Holds(t, x, t.size);
    if t.ring != [] {
      ChainReady(m, t, parent, idx, lo, w);
      JoinNodes(m, t, parent, idx, lo, w, Fd(m, x), Bk(m, x));
      assert Chained(t, x);
    } else if !IsLeafNode(t) {
      assert LeafSlot(t) == RpSlot(t, 0);
      var p, o, s := RpInside(t, 0, lo, w);
      if p != x { assert Apart(p, x); }
    }
  }

  /** bk leads back to x exactly when x is alone of its size. */
  lemma AloneInRing(m: Mem, t: Tree, parent: int, idx: int, lo: int, w: int)
    requires t.Node? && Rep(m, t, parent, idx) && Spread(t) && Trie(t, lo, w)
    ensures Bk(m, t.addr) != t.addr <==> t.ring != []
  {
    if t.ring != [] {
      ChainReady(m, t, parent, idx, lo, w);
    } else {
      assert Linked(m, [t.addr] + t.ring, 0);
    }
  }

  lemma UnlinkLargeInv(m: Mem, smallmap: BinMap, small: seq<seq<int>>, treemap: BinMap, trees: seq<Tree>,
        binned: Sizes, x: int)
    requires BinsInv(m, smallmap, small, treemap, trees, binned)
    requires x in binned && 256 <= binned[x]
    ensures var s := binned[x]; var i := TreeIndex(s);
            && |trees| == NTREEBINS && 0 <= i < NTREEBINS
            && var m' := UnlinkLargeMem(m, trees[i], x, s, i);
               var t' := Remove(trees[i], x, s, BinLo(i), BinWidth(i));
            && BinsInv(m', smallmap, small, if t'.Leaf? then Clear(treemap, i) else treemap, trees[i := t'],
                       binned - {x})
            && BinsFrame(m, m', binned)
  {
    hide SmallOK, TreesOK, LargeChange, Blocks, BinsFrame, UnlinkLargeMem, TreeIndex, Remove, BinLo, BinWidth;
    BlocksMinus(binned, x);
    UnlinkLargeOK(m, treemap, trees, binned, x);
    var i := TreeIndex(binned[x]);
    var m' := UnlinkLargeMem(m, trees[i], x, binned[x], i);
    LargeChangeFrame(m, m', binned);
    SmallAfterLargeUnlink(m, m', smallmap, small, binned, x);
  }
}
