/** unlink_large_chunk on a tree member: its replacement adopts its parent and children. */
module TrieUnlink {
  import opened Words
  import opened Rings
  import opened Tries
  import opened TrieMemory

  /** Memory after a child, if there is one, is handed to a new parent. */
  function Hang(m: Mem, r: int, c: int, j: int): Mem {
    if c == 0 then m else m[r + (16 + 4 * j) := c][c + 24 := r]
  }

  /** Memory after the replacement has taken over the node's parent and both its children. */
  function Adopt(m: Mem, x: int, r: int, xp: int): Mem {
    var m1 := m[r + 24 := xp];
    var m2 := Hang(m1, r, Child0(m1, x), 0);
    Hang(m2, r, Child1(m2, x), 1)
  }

  /** The replacement n.addr holds everything of n but its place in the tree, which x still has. */
  ghost predicate AdoptReady(m: Mem, n: Tree, x: int, idx: int) {
    && n.Node? && n.addr != 0
    && SizeOf(Head(m, n.addr)) == n.size && Index(m, n.addr) == idx
    && Child0(m, n.addr) == 0 && Child1(m, n.addr) == 0
    && Ring(m, [n.addr] + n.ring) && n.addr !in n.ring
    && (forall y | y in n.ring :: ChainNode(m, y, n.size, idx))
    && Rep(m, n.left, x, idx) && Rep(m, n.right, x, idx)
    && Child0(m, x) == Root(n.left) && Child1(m, x) == Root(n.right)
  }

  ghost predicate RootDistinct(t: Tree) {
    t.Node? ==> !HasSize(t.left, t.size) && !HasSize(t.right, t.size) && t.addr !in t.ring
  }

  /** The shape of n: chunks do not overlap each other or x, sizes are not repeated. */
  ghost predicate AdoptShape(n: Tree, x: int) {
    && n.Node? && Spread(n) && AllApart(n, x)
    && RootDistinct(n) && RootDistinct(n.left) && RootDistinct(n.right)
    && (forall s | HasSize(n.left, s) :: !HasSize(n.right, s))
  }

  lemma HangFields(m: Mem, r: int, c: int, j: int)
    requires c != 0 && Apart(r, c) && (j == 0 || j == 1)
    ensures var m' := Hang(m, r, c, j);
            && SameButChildren(m, m', r)
            && Child0(m', r) == (if j == 0 then c else Child0(m, r))
            && Child1(m', r) == (if j == 1 then c else Child1(m, r))
            && SameButParent(m, m', c) && Parent(m', c) == r
  {
    hide Rd;
    var m1 := m[r + (16 + 4 * j) := c];
    StoreChild(m, r, j, c);
    StoreApart(m, r, 16 + 4 * j, c, c);
    StoreApart(m1, c, 24, r, r);
    StoreParent(m1, c, r);
  }

  lemma StoreParent(m: Mem, c: int, r: int)
    ensures var m' := m[c + 24 := r]; SameButParent(m, m', c) && Parent(m', c) == r
  {
  }

  lemma HangFrame(m: Mem, r: int, c: int, j: int, y: int)
    requires c != 0 ==> Apart(r, y) && Apart(c, y)
    requires j == 0 || j == 1
    ensures SameNode(m, Hang(m, r, c, j), y)
  {
    if c != 0 {
      hide Rd;
      StoreApart(m, r, 16 + 4 * j, c, y);
      StoreApart(m[r + (16 + 4 * j) := c], c, 24, r, y);
    }
  }

  /** Hanging one subtree below r, seen from a chunk y outside it. */
  lemma HangSubtree(m: Mem, r: int, t: Tree, x: int, idx: int, j: int)
    requires Rep(m, t, x, idx) && RootDistinct(t) && Spread(t)
    requires AllApart(t, r) && (j == 0 || j == 1)
    ensures Rep(Hang(m, r, Root(t), j), t, r, idx)
  {
    if t.Node? {
      var m' := Hang(m, r, t.addr, j);
      assert Holds(t, t.addr, t.size);
      HangFields(m, r, t.addr, j);
      forall y, s | Holds(t, y, s) && y != t.addr ensures SameNode(m, m', y) {
        HangFrame(m, r, t.addr, j, y);
      }
      Reparent(m, m', t, x, r, idx);
    }
  }

  lemma HangOther(m: Mem, r: int, t: Tree, u: Tree, parent: int, idx: int, j: int)
    requires Rep(m, u, parent, idx) && AllApart(u, r) && (j == 0 || j == 1)
    requires t.Node? ==> AllApart(u, t.addr)
    requires t.Node? ==> t.addr != 0
    ensures Rep(Hang(m, r, Root(t), j), u, parent, idx)
  {
    forall y, s | Holds(u, y, s) ensures SameNode(m, Hang(m, r, Root(t), j), y) {
      if t.Node? { assert Apart(y, t.addr) && Apart(y, r); }
      HangFrame(m, r, Root(t), j, y);
    }
    RepFrame(m, Hang(m, r, Root(t), j), u, parent, idx);
  }

  ghost predicate Disjointed(n: Tree) {
    && n.Node?
    && AllApart(n.left, n.addr) && AllApart(n.right, n.addr)
    && (n.left.Node? ==> AllApart(n.right, n.left.addr))
    && (n.right.Node? ==> AllApart(n.left, n.right.addr))
    && (forall y | y in n.ring :: Apart(y, n.addr) && AllApart(n.left, y) && AllApart(n.right, y))
  }

  lemma ShapeApart(m: Mem, n: Tree, x: int, idx: int)
    requires AdoptReady(m, n, x, idx) && AdoptShape(n, x)
    ensures Disjointed(n)
  {
    assert Holds(n, n.addr, n.size);
    assert forall y | y in n.ring :: Holds(n, y, n.size);
    forall y, s, z, q | Holds(n, z, q) && (Holds(n.left, y, s) || Holds(n.right, y, s))
      && (q == n.size && Chained(n, z)) ensures Apart(y, z)
    {
      if Holds(n.left, y, s) { HoldsHasSize(n.left, y, s); RepSize(m, n.left, x, idx, y, s); }
      else { HoldsHasSize(n.right, y, s); RepSize(m, n.right, x, idx, y, s); }
      assert SizeOf(Head(m, z)) == n.size by {
        if z != n.addr { assert ChainNode(m, z, n.size, idx); }
      }
      assert Holds(n, y, s);
    }
    forall y, s, z, q | Holds(n.left, y, s) && Holds(n.right, z, q) ensures Apart(y, z) {
      HoldsHasSize(n.left, y, s);
      HoldsHasSize(n.right, z, q);
      RepSize(m, n.left, x, idx, y, s);
      RepSize(m, n.right, x, idx, z, q);
      assert Holds(n, y, s) && Holds(n, z, q);
    }
    if n.left.Node? { assert Holds(n.left, n.left.addr, n.left.size); }
    if n.right.Node? { assert Holds(n.right, n.right.addr, n.right.size); }
  }

  lemma AdoptFrame(m: Mem, n: Tree, x: int, idx: int, xp: int, y: int)
    requires AdoptReady(m, n, x, idx) && AllApart(n, x) && Apart(n.addr, y)
    requires n.left.Node? ==> Apart(n.left.addr, y) && Apart(n.left.addr, x)
    requires n.right.Node? ==> Apart(n.right.addr, y)
    requires Apart(n.addr, x)
    ensures SameNode(m, Adopt(m, x, n.addr, xp), y)
  {
    var r := n.addr;
    var m1 := m[r + 24 := xp];
    StoreApart(m, r, 24, xp, y);
    StoreApart(m, r, 24, xp, x);
    var m2 := Hang(m1, r, Root(n.left), 0);
    HangFrame(m1, r, Root(n.left), 0, y);
    HangFrame(m1, r, Root(n.left), 0, x);
    HangFrame(m2, r, Root(n.right), 1, y);
  }

  lemma AdoptRep(m: Mem, n: Tree, x: int, idx: int, xp: int)
    requires AdoptReady(m, n, x, idx) && AdoptShape(n, x)
    ensures Rep(Adopt(m, x, n.addr, xp), n, xp, idx)
  {
    ShapeApart(m, n, x, idx);
    AdoptNode(m, n, x, idx, xp);
    AdoptChildren(m, n, x, idx, xp);
  }

  lemma ShapeNodes(n: Tree, x: int)
    requires n.Node? && AllApart(n, x) && Spread(n)
    ensures Apart(n.addr, x) && (n.left.Node? ==> Apart(n.left.addr, x)) && (n.right.Node? ==> Apart(n.right.addr, x))
    ensures Spread(n.left) && Spread(n.right) && AllApart(n.left, x) && AllApart(n.right, x)
  {
    assert Holds(n, n.addr, n.size);
    assert forall y, s | Holds(n.left, y, s) :: Holds(n, y, s);
    assert forall y, s | Holds(n.right, y, s) :: Holds(n, y, s);
    if n.left.Node? { assert Holds(n.left, n.left.addr, n.left.size); }
    if n.right.Node? { assert Holds(n.right, n.right.addr, n.right.size); }
  }

  lemma AdoptChildren(m: Mem, n: Tree, x: int, idx: int, xp: int)
    requires AdoptReady(m, n, x, idx) && AdoptShape(n, x) && Disjointed(n)
    ensures var m' := Adopt(m, x, n.addr, xp); Rep(m', n.left, n.addr, idx) && Rep(m', n.right, n.addr, idx)
  {
    var r := n.addr;
    var m1 := m[r + 24 := xp];
    var m2 := Hang(m1, r, Root(n.left), 0);
    var m3 := Hang(m2, r, Root(n.right), 1);
    ShapeNodes(n, x);
    StoreApart(m, r, 24, xp, x);
    HangFrame(m1, r, Root(n.left), 0, x);
    assert m3 == Adopt(m, x, r, xp);
    forall y, s | Holds(n.left, y, s) || Holds(n.right, y, s) ensures SameNode(m, m1, y) {
      StoreApart(m, r, 24, xp, y);
    }
    assert n.left.Node? ==> n.left.addr != 0;
    assert n.right.Node? ==> n.right.addr != 0;
    hide Holds, Hang, Adopt, Spread;
    RepFrame(m, m1, n.left, x, idx);
    RepFrame(m, m1, n.right, x, idx);
    HangSubtree(m1, r, n.left, x, idx, 0);
    HangOther(m1, r, n.left, n.right, x, idx, 0);
    HangSubtree(m2, r, n.right, x, idx, 1);
    HangOther(m2, r, n.right, n.left, r, idx, 1);
  }

  /** The words of r itself after its adoption. */
  lemma AdoptFields(m: Mem, n: Tree, x: int, idx: int, xp: int)
    requires AdoptReady(m, n, x, idx) && AdoptShape(n, x) && Disjointed(n)
    ensures var m', r := Adopt(m, x, n.addr, xp), n.addr;
            && Head(m', r) == Head(m, r) && Fd(m', r) == Fd(m, r) && Bk(m', r) == Bk(m, r)
            && Index(m', r) == Index(m, r) && Parent(m', r) == xp
            && Child0(m', r) == Root(n.left) && Child1(m', r) == Root(n.right)
  {
    var r := n.addr;
    var m1 := m[r + 24 := xp];
    var m2 := Hang(m1, r, Root(n.left), 0);
    ShapeNodes(n, x);
    StoreApart(m, r, 24, xp, x);
    HangFrame(m1, r, Root(n.left), 0, x);
    StoreParent(m, r, xp);
    if n.left.Node? {
      assert Holds(n.left, n.left.addr, n.left.size);
      HangFields(m1, r, n.left.addr, 0);
    }
    if n.right.Node? {
      assert Holds(n.right, n.right.addr, n.right.size);
      HangFields(m2, r, n.right.addr, 1);
    }
    hide Hang, Holds, Rd;
  }

  lemma AdoptNode(m: Mem, n: Tree, x: int, idx: int, xp: int)
    requires AdoptReady(m, n, x, idx) && AdoptShape(n, x) && Disjointed(n)
    ensures TreeNode(Adopt(m, x, n.addr, xp), n, xp, idx)
  {
    var m' := Adopt(m, x, n.addr, xp);
    AdoptFields(m, n, x, idx, xp);
    ShapeNodes(n, x);
    forall y | y in n.ring ensures SameNode(m, m', y) {
      if n.left.Node? { assert Holds(n.left, n.left.addr, n.left.size); }
      if n.right.Node? { assert Holds(n.right, n.right.addr, n.right.size); }
      AdoptFrame(m, n, x, idx, xp, y);
    }
    forall y | y in [n.addr] + n.ring ensures Fd(m', y) == Fd(m, y) && Bk(m', y) == Bk(m, y) {
      if y != n.addr { assert y in n.ring; }
    }
    hide Adopt;
    RingFrame(m, m', [n.addr] + n.ring);
    forall y | y in n.ring ensures ChainNode(m', y, n.size, idx) {
      assert ChainNode(m, y, n.size, idx);
    }
  }

  // ------------------------------------------------- taking out the rightmost leaf

  predicate IsLeafNode(t: Tree) {
    t.Node? && t.left.Leaf? && t.right.Leaf?
  }

  /** The word RP that leads to the rightmost leaf, when slot leads to t. */
  function RpSlot(t: Tree, slot: int): int
    requires t.Node?
  {
    if t.right.Node? then RpSlot(t.right, t.addr + 20)
    else if t.left.Node? then RpSlot(t.left, t.addr + 16)
    else slot
  }

  /** Unless t is itself the leaf, RP is a child word of some node of t. */
  lemma {:induction false} RpInside(t: Tree, slot: int, lo: int, w: int) returns (p: int, o: int, s: int)
    requires t.Node? && !IsLeafNode(t) && Trie(t, lo, w)
    ensures Holds(t, p, s) && (o == 16 || o == 20) && RpSlot(t, slot) == p + o
    ensures s != Rightmost(t).size
  {
    var goLeft := t.right.Leaf?;
    var half := Half(t, goLeft);
    if IsLeafNode(half) {
      p, o, s := t.addr, if goLeft then 16 else 20, t.size;
    } else {
      p, o, s := RpInside(half, t.addr + (if goLeft then 16 else 20), if goLeft then lo else lo + w / 2, w / 2);
    }
  }

  lemma PruneFrame(m: Mem, t: Tree, slot: int, lo: int, w: int, y: int)
    requires t.Node? && AllApart(t, y) && Trie(t, lo, w)
    requires IsLeafNode(t) ==> Apart(slot - 16, y) || Apart(slot - 20, y)
    ensures SameNode(m, m[RpSlot(t, slot) := 0], y)
  {
    if IsLeafNode(t) {
      if Apart(slot - 16, y) { StoreApart(m, slot - 16, 16, 0, y); } else { StoreApart(m, slot - 20, 20, 0, y); }
    } else {
      var p, o, s := RpInside(t, slot, lo, w);
      StoreApart(m, p, o, 0, y);
    }
  }

  lemma {:induction false} PruneRep(m: Mem, t: Tree, parent: int, idx: int, slot: int, lo: int, w: int)
    requires t.Node? && Rep(m, t, parent, idx) && Spread(t) && Trie(t, lo, w)
    requires AllApart(t, slot - 16) || AllApart(t, slot - 20)
    ensures Rep(m[RpSlot(t, slot) := 0], Pruned(t), parent, idx)
  {
    if !IsLeafNode(t) {
      var goLeft := t.right.Leaf?;
      var half, other := Half(t, goLeft), Half(t, !goLeft);
      var slot' := t.addr + (if goLeft then 16 else 20);
      var m' := m[RpSlot(t, slot) := 0];
      assert RpSlot(t, slot) == RpSlot(half, slot');
      SpreadChildren(t);
      assert Holds(t, t.addr, t.size);
      OtherApart(m, t, parent, idx, lo, w, goLeft, t.addr, t.size);
      PruneRep(m, half, t.addr, idx, slot', if goLeft then lo else lo + w / 2, w / 2);
      PruneBeside(m, t, parent, idx, slot, lo, w);
      assert Pruned(t) == WithHalf(t, goLeft, Pruned(half));
      if IsLeafNode(half) {
        StoreChild(m, t.addr, if goLeft then 0 else 1, 0);
      } else {
        PruneFrame(m, half, slot', if goLeft then lo else lo + w / 2, w / 2, t.addr);
        assert Root(Pruned(half)) == half.addr;
      }
      assert TreeNode(m, t, parent, idx);
      hide Holds, Spread, Trie, RpSlot, AllApart;
      SubtreeChanged(m, m', t, parent, idx, goLeft, Pruned(half));
    }
  }

  lemma PruneBeside(m: Mem, t: Tree, parent: int, idx: int, slot: int, lo: int, w: int)
    requires t.Node? && Rep(m, t, parent, idx) && Spread(t) && Trie(t, lo, w) && !IsLeafNode(t)
    ensures var m' := m[RpSlot(t, slot) := 0];
            && (forall y | y in t.ring :: SameNode(m, m', y))
            && var other := Half(t, t.right.Node?); forall y, z | Holds(other, y, z) :: SameNode(m, m', y)
  {
    var goLeft := t.right.Leaf?;
    var half, other := Half(t, goLeft), Half(t, !goLeft);
    var slot' := t.addr + (if goLeft then 16 else 20);
    var m' := m[RpSlot(t, slot) := 0];
    assert RpSlot(t, slot) == RpSlot(half, slot');
    assert Holds(t, t.addr, t.size);
    assert forall y | y in t.ring :: Holds(t, y, t.size);
    assert forall y, z | Holds(other, y, z) :: Holds(t, y, z);
    forall y, z | Holds(t, y, z) && ((z == t.size && y in t.ring) || Holds(other, y, z))
      ensures SameNode(m, m', y)
    {
      OtherApart(m, t, parent, idx, lo, w, goLeft, y, z);
      if Holds(other, y, z) { ChildDistinct(m, t, parent, idx, y, z); }
      PruneFrame(m, half, slot', if goLeft then lo else lo + w / 2, w / 2, y);
    }
  }

  /** The leaf taken out keeps its own chain. */
  lemma {:induction false} RightmostNode(m: Mem, t: Tree, parent: int, idx: int)
    requires t.Node? && Rep(m, t, parent, idx)
    ensures var r := Rightmost(t);
            && IsLeafNode(r) && TreeNode(m, r, Parent(m, r.addr), idx)
            && (forall y | Chained(r, y) :: Holds(t, y, r.size))
  {
    if t.right.Node? {
      RightmostNode(m, t.right, t.addr, idx);
    } else if t.left.Node? {
      RightmostNode(m, t.left, t.addr, idx);
    }
  }

  // ------------------------------------------------------ the replacement is ready

  /** After x left, what remains of its subtree has the shape its replacement needs. */
  lemma RemainderShape(m: Mem, t: Tree, parent: int, idx: int, lo: int, w: int)
    requires t.Node? && Rep(m, t, parent, idx) && Spread(t) && Trie(t, lo, w)
    requires RemoveAt(t, t.addr).Node?
    ensures AdoptShape(RemoveAt(t, t.addr), t.addr)
  {
    var x := t.addr;
    var n := RemoveAt(t, x);
    RemoveAtTrie(t, x, lo, w);
    assert Holds(t, x, t.size);
    forall y, z | Holds(n, y, z) ensures Holds(t, y, z) && Apart(y, x) {
      RemoveAtHolds(t, x, lo, w, y, z);
      RepSize(m, t, parent, idx, y, z);
      RepSize(m, t, parent, idx, x, t.size);
    }
    forall s | HasSize(n.left, s) ensures !HasSize(n.right, s) {
      SizesInRange(n.left, lo, w / 2, s);
      if HasSize(n.right, s) { SizesInRange(n.right, lo + w / 2, w / 2, s); }
    }
  }

  /** The last chained node, out of the ring, is ready to replace x. */
  lemma ChainReady(m: Mem, t: Tree, parent: int, idx: int, lo: int, w: int)
    requires t.Node? && Rep(m, t, parent, idx) && Spread(t) && Trie(t, lo, w)
    requires t.ring != []
    ensures var x := t.addr; var n := RemoveAt(t, x);
            && Bk(m, x) == n.addr != x
            && Chained(t, Fd(m, x)) && Chained(t, Bk(m, x))
            && AdoptReady(Join(m, Fd(m, x), Bk(m, x)), n, x, idx)
  {
    var x := t.addr;
    var n := RemoveAt(t, x);
    var last := |t.ring| - 1;
    var m' := Join(m, Fd(m, x), Bk(m, x));
    assert n == t.(addr := t.ring[last], ring := t.ring[..last]);
    HeadRingGone(m, t);
    JoinNodes(m, t, parent, idx, lo, w, Fd(m, x), Bk(m, x));
    assert Chained(t, x) && Chained(t, n.addr);
    assert ChainNode(m, n.addr, t.size, idx);
    forall y | y in n.ring ensures ChainNode(m', y, n.size, idx) {
      assert y in t.ring && Chained(t, y) && ChainNode(m, y, t.size, idx);
    }
    assert Rep(m, t.left, x, idx) && Rep(m, t.right, x, idx);
    assert t.ring[last] !in t.ring[..last];
    hide Join, Ring, Trie, Spread, Holds;
    RepFrame(m, m', t.left, x, idx);
    RepFrame(m, m', t.right, x, idx);
  }

  lemma HeadRingGone(m: Mem, t: Tree)
    requires t.Node? && Ring(m, [t.addr] + t.ring) && t.ring != [] && t.addr !in t.ring
    ensures var x, last := t.addr, |t.ring| - 1;
            && Bk(m, x) == t.ring[last] != x
            && Chained(t, Fd(m, x))
            && Ring(Join(m, Fd(m, x), Bk(m, x)), [t.ring[last]] + t.ring[..last])
  {
    var x, last := t.addr, |t.ring| - 1;
    var r := [x] + t.ring;
    assert Linked(m, r, 0);
    assert r[last + 1] == t.ring[last];
    RotateRing(m, r);
    var q := Rotated(r);
    assert q == [t.ring[last], x] + t.ring[..last];
    UnlinkRing(m, q, 1);
    assert q[..1] + q[2..] == [t.ring[last]] + t.ring[..last];
  }

  /** The rightmost leaf below x, cut from its parent, is ready to replace x. */
  lemma LeafReady(m: Mem, t: Tree, parent: int, idx: int, lo: int, w: int, goLeft: bool)
    requires t.Node? && Rep(m, t, parent, idx) && Spread(t) && Trie(t, lo, w)
    requires t.ring == [] && !IsLeafNode(t) && goLeft == t.right.Leaf?
    ensures var slot := t.addr + (if goLeft then 16 else 20);
            AdoptReady(m[RpSlot(Half(t, goLeft), slot) := 0], RemoveAt(t, t.addr), t.addr, idx)
  {
    var x := t.addr;
    var n := RemoveAt(t, x);
    var c, other := Half(t, goLeft), Half(t, !goLeft);
    var lo' := if goLeft then lo else lo + w / 2;
    var slot := x + (if goLeft then 16 else 20);
    var m' := m[RpSlot(c, slot) := 0];
    assert Holds(t, x, t.size);
    SpreadChildren(t);
    OtherApart(m, t, parent, idx, lo, w, goLeft, x, t.size);
    PruneRep(m, c, x, idx, slot, lo', w / 2);
    PruneBeside(m, t, parent, idx, slot, lo, w);
    assert RpSlot(t, slot) == RpSlot(c, slot);
    assert n == RemoveHead(t) && n.addr == Rightmost(c).addr && n.ring == Rightmost(c).ring &&
      n.size == Rightmost(c).size;
    LeafNodeKept(m, c, x, idx, slot, lo', w / 2);
    if IsLeafNode(c) {
      StoreChild(m, x, if goLeft then 0 else 1, 0);
    } else {
      PruneFrame(m, c, slot, lo', w / 2, x);
    }
    assert Rep(m, other, x, idx) && TreeNode(m, t, parent, idx);
    PrunedHolds(c, lo', w / 2, 0, 0);
    hide Trie, Spread, Holds, RpSlot, RemoveAt, Rightmost;
    RepFrame(m, m', other, x, idx);
  }

  lemma LeafNodeKept(m: Mem, c: Tree, x: int, idx: int, slot: int, lo: int, w: int)
    requires c.Node? && Rep(m, c, x, idx) && Spread(c) && Trie(c, lo, w)
    requires AllApart(c, slot - 16) || AllApart(c, slot - 20)
    ensures var m' := m[RpSlot(c, slot) := 0]; TreeNode(m', Rightmost(c), Parent(m', Rightmost(c).addr), idx)
    ensures IsLeafNode(Rightmost(c))
  {
    var m' := m[RpSlot(c, slot) := 0];
    var r := Rightmost(c);
    RightmostNode(m, c, x, idx);
    forall y | Chained(r, y) ensures SameNode(m, m', y) {
      assert Holds(c, y, r.size);
      if IsLeafNode(c) {
        if AllApart(c, slot - 16) { StoreApart(m, slot - 16, 16, 0, y); } else { StoreApart(m, slot - 20, 20, 0, y); }
      } else {
        var p, o, s := RpInside(c, slot, lo, w);
        RepSize(m, c, x, idx, p, s);
        RepSize(m, c, x, idx, y, r.size);
        StoreApart(m, p, o, 0, y);
      }
    }
    assert Chained(r, r.addr);
    hide Holds, Spread, Trie, RpSlot, Rightmost;
    TreeNodeFrame(m, m', r, Parent(m, r.addr), Parent(m', r.addr), idx);
  }

  // ----------------------------------------------------------- the whole tree

  lemma SubApart(m: Mem, t: Tree, parent: int, idx: int, s: int, lo: int, w: int, y: int, z: int)
    requires t.Node? && Rep(m, t, parent, idx) && Spread(t) && Trie(t, lo, w)
    requires Holds(t, y, z) && !Holds(SubAt(t, s, lo, w), y, z)
    ensures AllApart(SubAt(t, s, lo, w), y)
  {
    var sub := SubAt(t, s, lo, w);
    SubHeld(m, t, parent, idx, s, lo, w);
    forall x, q | Holds(sub, x, q) ensures Apart(x, y) {
      RepSize(m, t, parent, idx, x, q);
      RepSize(m, t, parent, idx, y, z);
    }
  }

  lemma {:induction false} ParentApart(m: Mem, t: Tree, parent: int, idx: int, s: int, lo: int, w: int)
    requires t.Node? && Rep(m, t, parent, idx) && Spread(t) && Trie(t, lo, w) && t.size != s
    ensures AllApart(SubAt(t, s, lo, w), ParentAt(t, parent, s, lo, w))
    ensures SubAt(t, s, lo, w).Node? ==>
              var xp, x := ParentAt(t, parent, s, lo, w), SubAt(t, s, lo, w).addr;
              Child0(m, xp) == x || Child1(m, xp) == x
  {
    var goLeft := s < lo + w / 2;
    var half := Half(t, goLeft);
    var lo' := if goLeft then lo else lo + w / 2;
    assert SubAt(t, s, lo, w) == SubAt(half, s, lo', w / 2);
    if half.Node? && half.size != s {
      SpreadChildren(t);
      ParentApart(m, half, t.addr, idx, s, lo', w / 2);
    } else {
      assert Holds(t, t.addr, t.size);
      OtherApart(m, t, parent, idx, lo, w, goLeft, t.addr, t.size);
    }
  }

  /** Unlinking a chained chunk anywhere in the tree. */
  lemma ChainedUnlinked(m: Mem, t: Tree, parent: int, idx: int, x: int, s: int, lo: int, w: int)
    requires t.Node? && Rep(m, t, parent, idx) && Spread(t) && Trie(t, lo, w) && Holds(t, x, s)
    requires SubAt(t, s, lo, w).Node? && SubAt(t, s, lo, w).addr != x
    ensures Rep(Join(m, Fd(m, x), Bk(m, x)), Remove(t, x, s, lo, w), parent, idx)
    ensures Parent(m, x) == 0 && Bk(m, x) != x
    ensures Holds(t, Fd(m, x), s) && Holds(t, Bk(m, x), s)
  {
    hide *;
    var sub, xp := SubAt(t, s, lo, w), ParentAt(t, parent, s, lo, w);
    var f, b := Fd(m, x), Bk(m, x);
    RemoveIsReplace(t, x, s, lo, w);
    SubHeld(m, t, parent, idx, s, lo, w);
    var lo', w' := SubTrie(t, s, lo, w);
    ChainedHere(sub, x, s);
    UnchainRep(m, sub, xp, idx, x, lo', w');
    JoinBeside(m, sub, f, b, s);
    if t.size != s { ParentApart(m, t, parent, idx, s, lo, w); }
    forall y, z | Holds(t, y, z) && !Holds(sub, y, z) ensures AllApart(sub, y) {
      SubApart(m, t, parent, idx, s, lo, w, y, z);
    }
    MakeRingReplaced(m, Join(m, f, b), t, parent, idx, x, s, lo, w);
    ReplaceRep(m, Join(m, f, b), t, parent, idx, s, lo, w, RemoveAt(sub, x));
  }

  lemma ChainedHere(t: Tree, x: int, s: int)
    requires t.Node? && t.size == s && Chained(t, x) && t.addr != x
    ensures x in t.ring && forall y | Chained(t, y) :: Holds(t, y, s)
  {
  }

  lemma JoinBeside(m: Mem, sub: Tree, f: int, b: int, s: int)
    requires Holds(sub, f, s) && Holds(sub, b, s)
    ensures forall y | AllApart(sub, y) :: SameNode(m, Join(m, f, b), y)
  {
    forall y | AllApart(sub, y) ensures SameNode(m, Join(m, f, b), y) {
      assert Apart(f, y) && Apart(b, y);
      hide *;
      JoinApart(m, f, b, y);
    }
  }

  lemma MakeRingReplaced(m: Mem, m': Mem, t: Tree, parent: int, idx: int, x: int, s: int, lo: int, w: int)
    requires var sub, xp := SubAt(t, s, lo, w), ParentAt(t, parent, s, lo, w);
             && t.Node? && sub.Node? && x in sub.ring && x != sub.addr && Rep(m', RemoveAt(sub, x), xp, idx)
             && (forall y | AllApart(sub, y) :: SameNode(m, m', y))
             && (forall y, z | Holds(t, y, z) && !Holds(sub, y, z) :: AllApart(sub, y))
             && (t.size != s ==> AllApart(sub, xp) && (Child0(m, xp) == sub.addr || Child1(m, xp) == sub.addr))
    ensures ReplacedIn(m, m', t, parent, idx, s, lo, w, RemoveAt(SubAt(t, s, lo, w), x))
  {
    hide Rep, SubAt, ParentAt, AllApart, Holds;
  }

  lemma JoinApart(m: Mem, f: int, b: int, y: int)
    requires Apart(f, y) && Apart(b, y)
    ensures SameNode(m, Join(m, f, b), y)
  {
    StoreApart(m, f, 12, b, y);
    StoreApart(m[f + 12 := b], b, 8, f, y);
    hide Apart;
  }

  lemma {:induction false} SubTrie(t: Tree, s: int, lo: int, w: int) returns (lo': int, w': int)
    requires Trie(t, lo, w)
    ensures Trie(SubAt(t, s, lo, w), lo', w')
  {
    if t.Leaf? || t.size == s {
      lo', w' := lo, w;
    } else if s < lo + w / 2 {
      lo', w' := SubTrie(t.left, s, lo, w / 2);
    } else {
      lo', w' := SubTrie(t.right, s, lo + w / 2, w / 2);
    }
  }

  lemma ReadyFrame(m: Mem, m': Mem, n: Tree, x: int, idx: int)
    requires AdoptReady(m, n, x, idx)
    requires SameNode(m, m', x)
    requires forall y, z | Holds(n, y, z) :: SameNode(m, m', y)
    ensures AdoptReady(m', n, x, idx)
  {
    assert Holds(n, n.addr, n.size);
    assert forall y | y in n.ring :: Holds(n, y, n.size);
    assert forall y, z | Holds(n.left, y, z) :: Holds(n, y, z);
    assert forall y, z | Holds(n.right, y, z) :: Holds(n, y, z);
    forall y | y in [n.addr] + n.ring ensures Fd(m', y) == Fd(m, y) && Bk(m', y) == Bk(m, y) {
      if y != n.addr { assert y in n.ring; }
    }
    forall y | y in n.ring ensures ChainNode(m', y, n.size, idx) {
      assert ChainNode(m, y, n.size, idx);
    }
    RingFrame(m, m', [n.addr] + n.ring);
    hide Holds, Ring;
    RepFrame(m, m', n.left, x, idx);
    RepFrame(m, m', n.right, x, idx);
  }

  /** The word that leads to the node of size s: the bin's *H, or a child word of its parent. */
  function LinkTo(m: Mem, t: Tree, parent: int, s: int, lo: int, w: int, h: int, x: int): int
    requires t.Node?
  {
    var xp := ParentAt(t, parent, s, lo, w);
    if t.size == s then h else if Child0(m, xp) == x then xp + 16 else xp + 20
  }

  /** The last steps of unlinking the tree member x, from the moment its replacement n is ready. */
  function Unlinked(m1: Mem, link: int, n: Tree, x: int, xp: int): Mem {
    var m2 := m1[link := Root(n)];
    if n.Node? then Adopt(m2, x, n.addr, xp) else m2
  }

  /** The state in which Unlinked applies. */
  ghost predicate UnlinkReady(m: Mem, m1: Mem, t: Tree, parent: int, idx: int, s: int, lo: int, w: int, h: int) {
    && t.Node? && Rep(m, t, parent, idx) && Spread(t) && Trie(t, lo, w)
    && AllApart(t, h - 16)
    && SubAt(t, s, lo, w).Node?
    && var sub := SubAt(t, s, lo, w);
       var n := RemoveAt(sub, sub.addr);
    && (n.Node? ==> AdoptReady(m1, n, sub.addr, idx) && AdoptShape(n, sub.addr))
    && (forall y | AllApart(sub, y) :: SameNode(m, m1, y))
    && (forall y, z | Holds(n, y, z) :: Holds(sub, y, z))
  }

  lemma UnlinkedSame(m: Mem, m1: Mem, t: Tree, parent: int, idx: int, s: int, lo: int, w: int, h: int, y: int)
    requires UnlinkReady(m, m1, t, parent, idx, s, lo, w, h)
    requires var sub := SubAt(t, s, lo, w); AllApart(sub, y)
    requires if t.size == s then Apart(h - 16, y) else Apart(ParentAt(t, parent, s, lo, w), y)
    ensures var sub, xp := SubAt(t, s, lo, w), ParentAt(t, parent, s, lo, w);
            var n := RemoveAt(sub, sub.addr);
            SameNode(m, Unlinked(m1, LinkTo(m, t, parent, s, lo, w, h, sub.addr), n, sub.addr, xp), y)
  {
    var sub, xp := SubAt(t, s, lo, w), ParentAt(t, parent, s, lo, w);
    var x := sub.addr;
    var n := RemoveAt(sub, x);
    var link := LinkTo(m, t, parent, s, lo, w, h, x);
    var m2 := m1[link := Root(n)];
    LinkStored(m, m1, t, parent, idx, s, lo, w, h);
    assert SameNode(m1, m2, y) by {
      if t.size == s { StoreApart(m1, h - 16, 16, Root(n), y); }
      else { StoreApart(m1, xp, link - xp, Root(n), y); }
    }
    if n.Node? {
      ShapeNodes(n, x);
      assert Holds(n, n.addr, n.size);
      if n.left.Node? { assert Holds(n, n.left.addr, n.left.size); }
      if n.right.Node? { assert Holds(n, n.right.addr, n.right.size); }
      AdoptFrame(m2, n, x, idx, xp, y);
    }
  }

  /** Storing the link disturbs neither the replacement nor x. */
  lemma LinkStored(m: Mem, m1: Mem, t: Tree, parent: int, idx: int, s: int, lo: int, w: int, h: int)
    requires UnlinkReady(m, m1, t, parent, idx, s, lo, w, h)
    ensures var sub, xp := SubAt(t, s, lo, w), ParentAt(t, parent, s, lo, w);
            var n := RemoveAt(sub, sub.addr);
            var m2 := m1[LinkTo(m, t, parent, s, lo, w, h, sub.addr) := Root(n)];
            n.Node? ==> AdoptReady(m2, n, sub.addr, idx)
  {
    var sub, xp := SubAt(t, s, lo, w), ParentAt(t, parent, s, lo, w);
    var x := sub.addr;
    var n := RemoveAt(sub, x);
    var link := LinkTo(m, t, parent, s, lo, w, h, x);
    var m2 := m1[link := Root(n)];
    SubHeld(m, t, parent, idx, s, lo, w);
    if t.size != s { ParentApart(m, t, parent, idx, s, lo, w); }
    forall y, z | Holds(sub, y, z) ensures SameNode(m1, m2, y) {
      if t.size == s { StoreApart(m1, h - 16, 16, Root(n), y); }
      else { StoreApart(m1, xp, link - xp, Root(n), y); }
    }
    assert Holds(sub, x, sub.size);
    if n.Node? { ReadyFrame(m1, m2, n, x, idx); }
  }

  /** Unlinking a tree member, wherever it is in the tree. */
  lemma MemberUnlinked(m: Mem, m1: Mem, t: Tree, parent: int, idx: int, s: int, lo: int, w: int, h: int)
    requires UnlinkReady(m, m1, t, parent, idx, s, lo, w, h) && HasSize(t, s)
    ensures var sub, xp := SubAt(t, s, lo, w), ParentAt(t, parent, s, lo, w);
            var x := sub.addr;
            Rep(Unlinked(m1, LinkTo(m, t, parent, s, lo, w, h, x), RemoveAt(sub, x), x, xp),
                ReplaceAt(t, s, lo, w, RemoveAt(sub, x)), parent, idx)
  {
    var sub, xp := SubAt(t, s, lo, w), ParentAt(t, parent, s, lo, w);
    var x := sub.addr;
    var n := RemoveAt(sub, x);
    var link := LinkTo(m, t, parent, s, lo, w, h, x);
    var m2 := m1[link := Root(n)];
    var m3 := Unlinked(m1, link, n, x, xp);
    LinkStored(m, m1, t, parent, idx, s, lo, w, h);
    if n.Node? { AdoptRep(m2, n, x, idx, xp); }
    assert Rep(m3, n, xp, idx);
    forall y, z | Holds(t, y, z) && !Holds(sub, y, z) && y != xp ensures SameNode(m, m3, y) {
      SubApart(m, t, parent, idx, s, lo, w, y, z);
      if t.size != s {
        var q := ParentHeld(t, parent, s, lo, w);
        assert Apart(xp, y);
      }
      UnlinkedSame(m, m1, t, parent, idx, s, lo, w, h, y);
    }
    if t.size != s { ParentUpdated(m, m1, t, parent, idx, s, lo, w, h); }
    hide Holds, Trie, Spread, AdoptShape, AdoptReady, Unlinked;
    ReplaceRep(m, m3, t, parent, idx, s, lo, w, n);
  }

  lemma ParentUpdated(m: Mem, m1: Mem, t: Tree, parent: int, idx: int, s: int, lo: int, w: int, h: int)
    requires UnlinkReady(m, m1, t, parent, idx, s, lo, w, h) && t.size != s
    ensures var sub, xp := SubAt(t, s, lo, w), ParentAt(t, parent, s, lo, w);
            var x := sub.addr;
            var n := RemoveAt(sub, x);
            ParentLeadsTo(m, Unlinked(m1, LinkTo(m, t, parent, s, lo, w, h, x), n, x, xp), xp, x, Root(n))
  {
    var sub, xp := SubAt(t, s, lo, w), ParentAt(t, parent, s, lo, w);
    var x := sub.addr;
    var n := RemoveAt(sub, x);
    var link := LinkTo(m, t, parent, s, lo, w, h, x);
    var m2 := m1[link := Root(n)];
    ParentApart(m, t, parent, idx, s, lo, w);
    LinkStored(m, m1, t, parent, idx, s, lo, w, h);
    StoreChild(m1, xp, if link == xp + 16 then 0 else 1, Root(n));
    if n.Node? {
      ShapeNodes(n, x);
      assert Holds(n, n.addr, n.size);
      if n.left.Node? { assert Holds(n, n.left.addr, n.left.size); }
      if n.right.Node? { assert Holds(n, n.right.addr, n.right.size); }
      AdoptFrame(m2, n, x, idx, xp, xp);
    }
  }
}
