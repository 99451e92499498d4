/** Tries as they lie in memory: child, parent, index, fd and bk words of tree chunks. */
module TrieMemory {
  import opened Sequences
  import opened Words
  import opened Rings
  import opened Tries

  function Root(t: Tree): int {
    if t.Leaf? then 0 else t.addr
  }

  /** The words of the tree chunk at x, and those of its neighbours, do not overlap. */
  predicate Apart(x: int, y: int) {
    x + 32 <= y || y + 32 <= x
  }

  /** A chunk chained behind the tree member of its size, which alone is linked into the tree. */
  ghost predicate ChainNode(m: Mem, x: int, size: int, idx: int) {
    && x != 0
    && SizeOf(Head(m, x)) == size && Index(m, x) == idx
    && Parent(m, x) == 0 && Child0(m, x) == 0 && Child1(m, x) == 0
  }

  ghost predicate TreeNode(m: Mem, t: Tree, parent: int, idx: int)
    requires t.Node?
  {
    && t.addr != 0
    && SizeOf(Head(m, t.addr)) == t.size && Index(m, t.addr) == idx
    && Parent(m, t.addr) == parent
    && Child0(m, t.addr) == Root(t.left) && Child1(m, t.addr) == Root(t.right)
    && Ring(m, [t.addr] + t.ring)
    && forall x | x in t.ring :: ChainNode(m, x, t.size, idx)
  }

  /** Memory m holds the tree t below the given parent, in treebin idx. */
  ghost predicate Rep(m: Mem, t: Tree, parent: int, idx: int)
    decreases t
  {
    t.Leaf? ||
    (TreeNode(m, t, parent, idx) && Rep(m, t.left, t.addr, idx) && Rep(m, t.right, t.addr, idx))
  }

  /** The seven words the trie owns in the chunk at x are the same in m and m'. */
  ghost predicate SameNode(m: Mem, m': Mem, x: int) {
    && Head(m', x) == Head(m, x) && Fd(m', x) == Fd(m, x) && Bk(m', x) == Bk(m, x)
    && Child0(m', x) == Child0(m, x) && Child1(m', x) == Child1(m, x)
    && Parent(m', x) == Parent(m, x) && Index(m', x) == Index(m, x)
  }

  ghost predicate SameButParent(m: Mem, m': Mem, x: int) {
    && Head(m', x) == Head(m, x) && Fd(m', x) == Fd(m, x) && Bk(m', x) == Bk(m, x)
    && Child0(m', x) == Child0(m, x) && Child1(m', x) == Child1(m, x)
    && Index(m', x) == Index(m, x)
  }

  ghost predicate SameButChildren(m: Mem, m': Mem, x: int) {
    && Head(m', x) == Head(m, x) && Fd(m', x) == Fd(m, x) && Bk(m', x) == Bk(m, x)
    && Parent(m', x) == Parent(m, x) && Index(m', x) == Index(m, x)
  }

  /** A store to one field of a chunk changes no other field of it and no field of its neighbours. */
  lemma StoreOther(m: Mem, z: int, c: int, v: int, y: int, d: int)
    requires 4 <= c < 32 && 4 <= d < 32
    requires if z == y then c != d else Apart(z, y)
    ensures Rd(m[z + c := v], y + d) == Rd(m, y + d)
  {
  }

  lemma StoreSame(m: Mem, a: int, v: int)
    ensures Rd(m[a := v], a) == v
  {
  }

  lemma StoreApart(m: Mem, z: int, c: int, v: int, y: int)
    requires 4 <= c < 32 && Apart(z, y)
    ensures SameNode(m, m[z + c := v], y)
  {
  }

  lemma TreeNodeFrame(m: Mem, m': Mem, t: Tree, parent: int, parent': int, idx: int)
    requires t.Node? && TreeNode(m, t, parent, idx)
    requires SameButParent(m, m', t.addr) && Parent(m', t.addr) == parent'
    requires forall x | x in t.ring :: SameNode(m, m', x)
    ensures TreeNode(m', t, parent', idx)
  {
    forall x | x in [t.addr] + t.ring
      ensures Fd(m', x) == Fd(m, x) && Bk(m', x) == Bk(m, x)
    {
      if x != t.addr { assert x in t.ring; }
    }
    RingFrame(m, m', [t.addr] + t.ring);
    forall x | x in t.ring ensures ChainNode(m', x, t.size, idx) {
      assert ChainNode(m, x, t.size, idx);
    }
  }

  lemma {:induction false} RepFrame(m: Mem, m': Mem, t: Tree, parent: int, idx: int)
    requires Rep(m, t, parent, idx)
    requires forall x, s | Holds(t, x, s) :: SameNode(m, m', x)
    ensures Rep(m', t, parent, idx)
  {
    if t.Node? {
      assert Holds(t, t.addr, t.size);
      assert forall x | x in t.ring :: Holds(t, x, t.size);
      TreeNodeFrame(m, m', t, parent, parent, idx);
      assert forall x, s | Holds(t.left, x, s) :: Holds(t, x, s);
      assert forall x, s | Holds(t.right, x, s) :: Holds(t, x, s);
      RepFrame(m, m', t.left, t.addr, idx);
      RepFrame(m, m', t.right, t.addr, idx);
    }
  }

  lemma {:induction false} RepSize(m: Mem, t: Tree, parent: int, idx: int, x: int, s: int)
    requires Rep(m, t, parent, idx) && Holds(t, x, s)
    ensures SizeOf(Head(m, x)) == s && x != 0 && Index(m, x) == idx && x % 8 == 0
  {
    if s == t.size && Chained(t, x) {
      if x == t.addr {
        assert ([t.addr] + t.ring)[0] == x;
      } else {
        assert ChainNode(m, x, t.size, idx);
        var k :| 0 <= k < |t.ring| && t.ring[k] == x;
        assert ([t.addr] + t.ring)[k + 1] == x;
      }
    } else if Holds(t.left, x, s) {
      RepSize(m, t.left, t.addr, idx, x, s);
    } else {
      RepSize(m, t.right, t.addr, idx, x, s);
    }
  }

  /** Chunks of a subtree are not chunks of its parent node: their sizes differ. */
  lemma ChildDistinct(m: Mem, t: Tree, parent: int, idx: int, x: int, s: int)
    requires t.Node? && Rep(m, t, parent, idx)
    requires !HasSize(t.left, t.size) && !HasSize(t.right, t.size)
    requires Holds(t.left, x, s) || Holds(t.right, x, s)
    ensures x != t.addr && x !in t.ring && s != t.size
  {
    RepSize(m, t, parent, idx, x, s);
    if Holds(t.left, x, s) { HoldsHasSize(t.left, x, s); } else { HoldsHasSize(t.right, x, s); }
    if Chained(t, x) { RepSize(m, t, parent, idx, x, t.size); }
  }

  /** A tree hung below another parent: only the parent word of its root changes. */
  lemma Reparent(m: Mem, m': Mem, t: Tree, parent: int, parent': int, idx: int)
    requires Rep(m, t, parent, idx)
    requires t.Node? ==> !HasSize(t.left, t.size) && !HasSize(t.right, t.size) && t.addr !in t.ring
    requires t.Node? ==> SameButParent(m, m', t.addr) && Parent(m', t.addr) == parent'
    requires forall x, s | Holds(t, x, s) && x != t.addr :: SameNode(m, m', x)
    ensures Rep(m', t, parent', idx)
  {
    if t.Node? {
      assert forall x | x in t.ring :: Holds(t, x, t.size);
      TreeNodeFrame(m, m', t, parent, parent', idx);
      forall x, s | Holds(t.left, x, s) || Holds(t.right, x, s) ensures SameNode(m, m', x) {
        ChildDistinct(m, t, parent, idx, x, s);
        assert Holds(t, x, s);
      }
      RepFrame(m, m', t.left, t.addr, idx);
      RepFrame(m, m', t.right, t.addr, idx);
    }
  }

  // ---------------------------------------------------------------- insertion

  /** Where the insertion walk ends: behind a node of the same size, or at an empty child word. */
  datatype Spot = Behind(node: int) | Slot(word: int, parent: int)

  function FindSpot(t: Tree, s: int, lo: int, w: int): Spot
    requires t.Node?
  {
    if s == t.size then Behind(t.addr)
    else if s < lo + w / 2 then
      if t.left.Leaf? then Slot(t.addr + 16, t.addr) else FindSpot(t.left, s, lo, w / 2)
    else
      if t.right.Leaf? then Slot(t.addr + 20, t.addr) else FindSpot(t.right, s, lo + w / 2, w / 2)
  }

  /** The writes of insert_large_chunk at the end of its walk. */
  function Place(m: Mem, spot: Spot, x: int): Mem {
    match spot
    case Behind(t) => LinkBetween(m, t, x, Fd(m, t))[x + 24 := 0]
    case Slot(c, p) => m[c := x][x + 24 := p][x + 8 := x][x + 12 := x]
  }

  /** x with its index set and its children cleared, not yet linked. */
  ghost predicate FreshNode(m: Mem, x: int, s: int, idx: int) {
    && x != 0 && x % 8 == 0
    && SizeOf(Head(m, x)) == s && Index(m, x) == idx && Child0(m, x) == 0 && Child1(m, x) == 0
  }

  ghost predicate AllApart(t: Tree, y: int) {
    forall x, s | Holds(t, x, s) :: Apart(x, y)
  }

  /** The forward neighbour of a tree member is chained with it. */
  lemma FdChained(m: Mem, t: Tree, parent: int, idx: int)
    requires t.Node? && Rep(m, t, parent, idx)
    ensures Holds(t, Fd(m, t.addr), t.size)
    ensures Fd(m, t.addr) % 8 == 0 && t.addr % 8 == 0
  {
    var r := [t.addr] + t.ring;
    assert Linked(m, r, 0);
    assert r[0] % 8 == 0 && Next(r, 0) % 8 == 0;
    assert Next(r, 0) == t.addr || Next(r, 0) in t.ring;
  }

  lemma SpotFrame(m: Mem, spot: Spot, x: int, y: int)
    requires Apart(x, y)
    requires match spot
             case Behind(t) => Apart(t, y) && Apart(Fd(m, t), y)
             case Slot(c, p) => (c == p + 16 || c == p + 20) && Apart(p, y)
    ensures SameNode(m, Place(m, spot, x), y)
  {
    match spot
    case Behind(t) =>
      var f := Fd(m, t);
      var m1 := m[t + 8 := x];
      var m2 := m1[f + 12 := x];
      var m3 := m2[x + 8 := f];
      var m4 := m3[x + 12 := t];
      hide Rd;
      StoreApart(m, t, 8, x, y);
      StoreApart(m1, f, 12, x, y);
      StoreApart(m2, x, 8, f, y);
      StoreApart(m3, x, 12, t, y);
      StoreApart(m4, x, 24, 0, y);
    case Slot(c, p) =>
      var m1 := m[c := x];
      var m2 := m1[x + 24 := p];
      var m3 := m2[x + 8 := x];
      hide Rd;
      StoreApart(m, p, c - p, x, y);
      StoreApart(m1, x, 24, p, y);
      StoreApart(m2, x, 8, x, y);
      StoreApart(m3, x, 12, x, y);
  }

  lemma {:induction false} PlaceFrame(m: Mem, t: Tree, parent: int, idx: int, x: int, s: int, lo: int, w: int, y: int)
    requires t.Node? && Rep(m, t, parent, idx)
    requires AllApart(t, y) && Apart(x, y)
    ensures SameNode(m, Place(m, FindSpot(t, s, lo, w), x), y)
  {
    assert Holds(t, t.addr, t.size);
    FdChained(m, t, parent, idx);
    if s == t.size || (if s < lo + w / 2 then t.left else t.right).Leaf? {
      SpotFrame(m, FindSpot(t, s, lo, w), x, y);
    } else if s < lo + w / 2 {
      assert forall z, q | Holds(t.left, z, q) :: Holds(t, z, q);
      PlaceFrame(m, t.left, t.addr, idx, x, s, lo, w / 2, y);
    } else {
      assert forall z, q | Holds(t.right, z, q) :: Holds(t, z, q);
      PlaceFrame(m, t.right, t.addr, idx, x, s, lo + w / 2, w / 2, y);
    }
  }

  /** Distinct chunks of the tree do not overlap. */
  ghost predicate Spread(t: Tree) {
    forall x, s, y, z | Holds(t, x, s) && Holds(t, y, z) && x != y :: Apart(x, y)
  }

  lemma SpreadChildren(t: Tree)
    requires t.Node? && Spread(t)
    ensures Spread(t.left) && Spread(t.right)
  {
    assert forall x, s | Holds(t.left, x, s) :: Holds(t, x, s);
    assert forall x, s | Holds(t.right, x, s) :: Holds(t, x, s);
  }

  /** Linking x into a ring changes no words but fd and bk. */
  lemma LinkOther(m: Mem, b: int, x: int, f: int, y: int, d: int)
    requires d == 4 || 16 <= d < 32
    requires (y == x || Apart(x, y)) && (y == b || Apart(b, y)) && (y == f || Apart(f, y))
    ensures Rd(LinkBetween(m, b, x, f), y + d) == Rd(m, y + d)
  {
    hide Rd;
    StoreOther(m, b, 8, x, y, d);
    var m1 := m[b + 8 := x];
    StoreOther(m1, f, 12, x, y, d);
    var m2 := m1[f + 12 := x];
    StoreOther(m2, x, 8, f, y, d);
    StoreOther(m2[x + 8 := f], x, 12, b, y, d);
  }

  lemma BehindFields(m: Mem, b: int, x: int, f: int, y: int)
    requires f == Fd(m, b)
    requires (y == x || Apart(x, y)) && (y == b || Apart(b, y)) && (y == f || Apart(f, y))
    ensures var m' := Place(m, Behind(b), x);
            && Head(m', y) == Head(m, y) && Index(m', y) == Index(m, y)
            && Child0(m', y) == Child0(m, y) && Child1(m', y) == Child1(m, y)
            && Parent(m', y) == (if y == x then 0 else Parent(m, y))
            && Fd(m', y) == Fd(LinkBetween(m, b, x, f), y)
            && Bk(m', y) == Bk(LinkBetween(m, b, x, f), y)
  {
    hide Rd, LinkBetween;
    var m1 := LinkBetween(m, b, x, f);
    LinkOther(m, b, x, f, y, 4);
    LinkOther(m, b, x, f, y, 16);
    LinkOther(m, b, x, f, y, 20);
    LinkOther(m, b, x, f, y, 24);
    LinkOther(m, b, x, f, y, 28);
    StoreSame(m1, x + 24, 0);
    StoreOther(m1, x, 24, 0, y, 4);
    StoreOther(m1, x, 24, 0, y, 8);
    StoreOther(m1, x, 24, 0, y, 12);
    StoreOther(m1, x, 24, 0, y, 16);
    StoreOther(m1, x, 24, 0, y, 20);
    StoreOther(m1, x, 24, 0, y, 28);
    if y != x { StoreOther(m1, x, 24, 0, y, 24); }
  }

  lemma PlaceBehindNode(m: Mem, t: Tree, parent: int, idx: int, x: int)
    requires t.Node? && Rep(m, t, parent, idx) && Spread(t)
    requires FreshNode(m, x, t.size, idx) && AllApart(t, x)
    ensures TreeNode(Place(m, Behind(t.addr), x), t.(ring := [x] + t.ring), parent, idx)
  {
    var m1 := LinkBetween(m, t.addr, x, Fd(m, t.addr));
    var m' := Place(m, Behind(t.addr), x);
    var r' := [t.addr, x] + t.ring;
    FdChained(m, t, parent, idx);
    assert Holds(t, t.addr, t.size);
    assert ([t.addr] + t.ring)[1..] == t.ring;
    assert forall y | y in t.ring :: Holds(t, y, t.size);
    LinkRing(m, [t.addr] + t.ring, x);
    assert Ring(m1, r') by { assert [t.addr, x] + ([t.addr] + t.ring)[1..] == r'; }
    assert [t.addr] + ([x] + t.ring) == r';
    forall y | y in r'
      ensures y % 8 == 0 && (y == x || Holds(t, y, t.size))
    {
    }
    forall y | y in r'
      ensures Fd(m', y) == Fd(m1, y) && Bk(m', y) == Bk(m1, y)
      ensures Head(m', y) == Head(m, y) && Index(m', y) == Index(m, y)
      ensures Child0(m', y) == Child0(m, y) && Child1(m', y) == Child1(m, y)
      ensures Parent(m', y) == (if y == x then 0 else Parent(m, y))
    {
      BehindFields(m, t.addr, x, Fd(m, t.addr), y);
    }
    RingFrame(m1, m', r');
    forall y | y in [x] + t.ring ensures ChainNode(m', y, t.size, idx) {
      if y != x { assert ChainNode(m, y, t.size, idx); }
      assert y in r';
    }
    assert t.addr in r';
  }

  lemma ChildrenApart(m: Mem, t: Tree, parent: int, idx: int, x: int, s: int)
    requires t.Node? && Rep(m, t, parent, idx) && Spread(t)
    requires !HasSize(t.left, t.size) && !HasSize(t.right, t.size)
    requires Holds(t.left, x, s) || Holds(t.right, x, s)
    ensures Apart(t.addr, x) && forall y | y in t.ring :: Apart(y, x)
    ensures Holds(t, x, s)
  {
    ChildDistinct(m, t, parent, idx, x, s);
    assert Holds(t, x, s) && Holds(t, t.addr, t.size);
    assert forall y | y in t.ring :: Holds(t, y, t.size);
  }

  lemma PlaceBehind(m: Mem, t: Tree, parent: int, idx: int, x: int)
    requires t.Node? && Rep(m, t, parent, idx) && Spread(t)
    requires !HasSize(t.left, t.size) && !HasSize(t.right, t.size)
    requires FreshNode(m, x, t.size, idx) && AllApart(t, x)
    ensures Rep(Place(m, Behind(t.addr), x), t.(ring := [x] + t.ring), parent, idx)
  {
    var m' := Place(m, Behind(t.addr), x);
    PlaceBehindNode(m, t, parent, idx, x);
    FdChained(m, t, parent, idx);
    assert Fd(m, t.addr) == t.addr || Fd(m, t.addr) in t.ring by {
      assert Linked(m, [t.addr] + t.ring, 0);
    }
    forall y, s | Holds(t.left, y, s) || Holds(t.right, y, s) ensures SameNode(m, m', y) {
      ChildrenApart(m, t, parent, idx, y, s);
      SpotFrame(m, Behind(t.addr), x, y);
    }
    hide Place, TreeNode;
    RepFrame(m, m', t.left, t.addr, idx);
    RepFrame(m, m', t.right, t.addr, idx);
  }

  /** A tree member whose child words now lead to other subtrees. */
  lemma NewChildren(m: Mem, m': Mem, t: Tree, parent: int, idx: int, left: Tree, right: Tree)
    requires t.Node? && TreeNode(m, t, parent, idx)
    requires SameButChildren(m, m', t.addr)
    requires Child0(m', t.addr) == Root(left) && Child1(m', t.addr) == Root(right)
    requires forall x | x in t.ring :: SameNode(m, m', x)
    ensures TreeNode(m', t.(left := left, right := right), parent, idx)
  {
    forall x | x in [t.addr] + t.ring
      ensures Fd(m', x) == Fd(m, x) && Bk(m', x) == Bk(m, x)
    {
      if x != t.addr { assert x in t.ring; }
    }
    RingFrame(m, m', [t.addr] + t.ring);
    forall x | x in t.ring ensures ChainNode(m', x, t.size, idx) {
      assert ChainNode(m, x, t.size, idx);
    }
  }

  lemma SlotFields(m: Mem, p: int, j: int, x: int)
    requires Apart(x, p) && (j == 0 || j == 1)
    ensures var m' := Place(m, Slot(p + 16 + 4 * j, p), x);
            && SameButChildren(m, m', p)
            && Child0(m', p) == (if j == 0 then x else Child0(m, p))
            && Child1(m', p) == (if j == 1 then x else Child1(m, p))
            && Head(m', x) == Head(m, x) && Index(m', x) == Index(m, x)
            && Child0(m', x) == Child0(m, x) && Child1(m', x) == Child1(m, x)
            && Parent(m', x) == p && Fd(m', x) == x && Bk(m', x) == x
  {
    hide Rd;
    var o := 16 + 4 * j;
    assert p + 16 + 4 * j == p + o;
    var m1 := m[p + o := x];
    var m2 := m1[x + 24 := p];
    var m3 := m2[x + 8 := x];
    var m4 := m3[x + 12 := x];
    StoreChild(m, p, j, x);
    StoreApart(m, p, o, x, x);
    StoreApart(m1, x, 24, p, p);
    StoreApart(m2, x, 8, x, p);
    StoreApart(m3, x, 12, x, p);
    SelfLinkFields(m1, x, p);
  }

  lemma StoreChild(m: Mem, p: int, j: int, x: int)
    requires j == 0 || j == 1
    ensures var m' := m[p + (16 + 4 * j) := x];
            && SameButChildren(m, m', p)
            && Child0(m', p) == (if j == 0 then x else Child0(m, p))
            && Child1(m', p) == (if j == 1 then x else Child1(m, p))
  {
  }

  lemma SelfLinkFields(m: Mem, x: int, p: int)
    ensures var m' := m[x + 24 := p][x + 8 := x][x + 12 := x];
            && Head(m', x) == Head(m, x) && Index(m', x) == Index(m, x)
            && Child0(m', x) == Child0(m, x) && Child1(m', x) == Child1(m, x)
            && Parent(m', x) == p && Fd(m', x) == x && Bk(m', x) == x
  {
  }

  /** A node without children, linked to itself. */
  lemma LoneNode(m: Mem, x: int, s: int, parent: int, idx: int)
    requires FreshNode(m, x, s, idx) && Parent(m, x) == parent && Fd(m, x) == x && Bk(m, x) == x
    ensures Rep(m, Node(x, s, [], Leaf, Leaf), parent, idx)
  {
    assert Ring(m, [x]);
    assert Rep(m, Leaf, x, idx);
    assert TreeNode(m, Node(x, s, [], Leaf, Leaf), parent, idx);
  }

  lemma PlaceSlot(m: Mem, t: Tree, parent: int, idx: int, x: int, s: int, j: int)
    requires t.Node? && Rep(m, t, parent, idx) && Spread(t)
    requires !HasSize(t.left, t.size) && !HasSize(t.right, t.size) && t.addr !in t.ring
    requires FreshNode(m, x, s, idx) && AllApart(t, x)
    requires (j == 0 && t.left.Leaf?) || (j == 1 && t.right.Leaf?)
    ensures var n := Node(x, s, [], Leaf, Leaf);
            Rep(Place(m, Slot(t.addr + 16 + 4 * j, t.addr), x),
                if j == 0 then t.(left := n) else t.(right := n), parent, idx)
  {
    var p := t.addr;
    var n := Node(x, s, [], Leaf, Leaf);
    var m' := Place(m, Slot(p + 16 + 4 * j, p), x);
    assert Holds(t, p, t.size);
    assert forall y | y in t.ring :: Holds(t, y, t.size);
    SlotFields(m, p, j, x);
    forall y, z | Holds(t, y, z) && y != p ensures SameNode(m, m', y) {
      SpotFrame(m, Slot(p + 16 + 4 * j, p), x, y);
    }
    forall y, z | Holds(t.left, y, z) || Holds(t.right, y, z) ensures SameNode(m, m', y) {
      ChildDistinct(m, t, parent, idx, y, z);
      assert Holds(t, y, z);
    }
    hide Place, AllApart, Apart;
    LoneNode(m', x, s, p, idx);
    hide Ring, SizeOf;
    RepFrame(m, m', t.left, p, idx);
    RepFrame(m, m', t.right, p, idx);
    if j == 0 {
      NewChildren(m, m', t, parent, idx, n, t.right);
    } else {
      NewChildren(m, m', t, parent, idx, t.left, n);
    }
  }

  lemma InsertRoot(t: Tree, x: int, s: int, lo: int, w: int)
    ensures Root(Insert(t, x, s, lo, w)) == if t.Leaf? then x else t.addr
  {
  }

  function Half(t: Tree, goLeft: bool): Tree
    requires t.Node?
  {
    if goLeft then t.left else t.right
  }

  function WithHalf(t: Tree, goLeft: bool, sub: Tree): Tree
    requires t.Node?
  {
    if goLeft then t.(left := sub) else t.(right := sub)
  }

  /** One step up from a changed subtree. */
  lemma SubtreeChanged(m: Mem, m': Mem, t: Tree, parent: int, idx: int, goLeft: bool, sub: Tree)
    requires t.Node? && Rep(m, t, parent, idx)
    requires Rep(m', sub, t.addr, idx)
    requires SameButChildren(m, m', t.addr)
    requires Child0(m', t.addr) == (if goLeft then Root(sub) else Child0(m, t.addr))
    requires Child1(m', t.addr) == (if goLeft then Child1(m, t.addr) else Root(sub))
    requires forall y | y in t.ring :: SameNode(m, m', y)
    requires var other := Half(t, !goLeft); forall y, z | Holds(other, y, z) :: SameNode(m, m', y)
    ensures Rep(m', WithHalf(t, goLeft, sub), parent, idx)
  {
    var t' := WithHalf(t, goLeft, sub);
    NewChildren(m, m', t, parent, idx, t'.left, t'.right);
    RepFrame(m, m', Half(t, !goLeft), t.addr, idx);
  }

  lemma OtherApart(m: Mem, t: Tree, parent: int, idx: int, lo: int, w: int, goLeft: bool, y: int, z: int)
    requires t.Node? && Rep(m, t, parent, idx) && Spread(t) && Trie(t, lo, w)
    requires Holds(t, y, z) && (z == t.size || Holds(Half(t, !goLeft), y, z))
    ensures AllApart(Half(t, goLeft), y)
  {
    var sub := Half(t, goLeft);
    forall x, s | Holds(sub, x, s) ensures Apart(x, y) {
      HoldsHasSize(sub, x, s);
      SizesInRange(sub, if goLeft then lo else lo + w / 2, w / 2, s);
      if z != t.size {
        var other := Half(t, !goLeft);
        HoldsHasSize(other, y, z);
        SizesInRange(other, if goLeft then lo + w / 2 else lo, w / 2, z);
      }
      assert s != z;
      assert Holds(t, x, s);
      RepSize(m, t, parent, idx, x, s);
      RepSize(m, t, parent, idx, y, z);
    }
  }

  /** Writes made inside one subtree leave the node above it and the other subtree alone. */
  lemma PlaceBeside(m: Mem, t: Tree, parent: int, idx: int, x: int, s: int, lo: int, w: int, goLeft: bool)
    requires t.Node? && Rep(m, t, parent, idx) && Spread(t) && Trie(t, lo, w)
    requires AllApart(t, x) && s != t.size && goLeft == (s < lo + w / 2) && Half(t, goLeft).Node?
    ensures var m' := Place(m, FindSpot(t, s, lo, w), x);
            && SameNode(m, m', t.addr)
            && (forall y | y in t.ring :: SameNode(m, m', y))
            && var other := Half(t, !goLeft); forall y, z | Holds(other, y, z) :: SameNode(m, m', y)
  {
    var sub, other := Half(t, goLeft), Half(t, !goLeft);
    var m' := Place(m, FindSpot(t, s, lo, w), x);
    forall y, z | Holds(t, y, z) && (z == t.size || Holds(other, y, z))
      ensures SameNode(m, m', y)
    {
      OtherApart(m, t, parent, idx, lo, w, goLeft, y, z);
      PlaceFrame(m, sub, t.addr, idx, x, s, if goLeft then lo else lo + w / 2, w / 2, y);
    }
    assert Holds(t, t.addr, t.size);
    assert forall y | y in t.ring :: Holds(t, y, t.size);
    assert forall y, z | Holds(other, y, z) :: Holds(t, y, z);
  }

  /** The pointer writes of insert_large_chunk turn the tree in memory into Insert of it. */
  lemma {:induction false} PlaceRep(m: Mem, t: Tree, parent: int, idx: int, x: int, s: int, lo: int, w: int)
    requires t.Node? && Rep(m, t, parent, idx) && Spread(t) && Trie(t, lo, w)
    requires FreshNode(m, x, s, idx) && AllApart(t, x)
    ensures Rep(Place(m, FindSpot(t, s, lo, w), x), Insert(t, x, s, lo, w), parent, idx)
  {
    var goLeft := s < lo + w / 2;
    var sub := Half(t, goLeft);
    if s == t.size {
      PlaceBehind(m, t, parent, idx, x);
    } else if sub.Leaf? {
      PlaceSlot(m, t, parent, idx, x, s, if goLeft then 0 else 1);
    } else {
      var lo' := if goLeft then lo else lo + w / 2;
      SpreadChildren(t);
      assert AllApart(sub, x) by {
        assert forall y, z | Holds(sub, y, z) :: Holds(t, y, z);
      }
      assert Rep(m, sub, t.addr, idx) && Trie(sub, lo', w / 2);
      PlaceBeside(m, t, parent, idx, x, s, lo, w, goLeft);
      InsertRoot(sub, x, s, lo', w / 2);
      assert FindSpot(t, s, lo, w) == FindSpot(sub, s, lo', w / 2);
      assert TreeNode(m, t, parent, idx);
      hide Place, FindSpot, Rep, Trie, Spread, AllApart, FreshNode, Holds;
      PlaceRep(m, sub, t.addr, idx, x, s, lo', w / 2);
      SubtreeChanged(m, Place(m, FindSpot(t, s, lo, w), x), t, parent, idx, goLeft, Insert(sub, x, s, lo', w / 2));
    }
  }

  // ------------------------------------------------------------------ removal

  /** The subtree whose root has size s, its parent, and the tree with that subtree replaced. */
  function SubAt(t: Tree, s: int, lo: int, w: int): Tree {
    if t.Leaf? || t.size == s then t
    else if s < lo + w / 2 then SubAt(t.left, s, lo, w / 2)
    else SubAt(t.right, s, lo + w / 2, w / 2)
  }

  function ParentAt(t: Tree, parent: int, s: int, lo: int, w: int): int {
    if t.Leaf? || t.size == s then parent
    else if s < lo + w / 2 then ParentAt(t.left, t.addr, s, lo, w / 2)
    else ParentAt(t.right, t.addr, s, lo + w / 2, w / 2)
  }

  function ReplaceAt(t: Tree, s: int, lo: int, w: int, sub: Tree): Tree {
    if t.Leaf? || t.size == s then sub
    else if s < lo + w / 2 then t.(left := ReplaceAt(t.left, s, lo, w / 2, sub))
    else t.(right := ReplaceAt(t.right, s, lo + w / 2, w / 2, sub))
  }

  lemma {:induction false} RemoveIsReplace(t: Tree, x: int, s: int, lo: int, w: int)
    requires Trie(t, lo, w) && Holds(t, x, s)
    ensures var sub := SubAt(t, s, lo, w);
            sub.Node? && sub.size == s && Chained(sub, x)
            && Remove(t, x, s, lo, w) == ReplaceAt(t, s, lo, w, RemoveAt(sub, x))
  {
    if s == t.size {
      AtItsSize(t, x, s, lo, w);
    } else {
      Descend(t, x, s, lo, w);
      if s < lo + w / 2 {
        RemoveIsReplace(t.left, x, s, lo, w / 2);
      } else {
        RemoveIsReplace(t.right, x, s, lo + w / 2, w / 2);
      }
    }
  }

  lemma {:induction false} SubHeld(m: Mem, t: Tree, parent: int, idx: int, s: int, lo: int, w: int)
    requires Rep(m, t, parent, idx) && Trie(t, lo, w) && Spread(t) && t.Node?
    ensures var sub := SubAt(t, s, lo, w);
            && Rep(m, sub, ParentAt(t, parent, s, lo, w), idx) && Spread(sub)
            && (forall y, z | Holds(sub, y, z) :: Holds(t, y, z))
  {
    if t.size != s {
      var goLeft := s < lo + w / 2;
      var half := Half(t, goLeft);
      SpreadChildren(t);
      assert Rep(m, half, t.addr, idx);
      assert forall y, z | Holds(half, y, z) :: Holds(t, y, z);
      assert Holds(t, t.addr, t.size);
      if half.Node? {
        SubHeld(m, half, t.addr, idx, s, if goLeft then lo else lo + w / 2, w / 2);
      }
    }
  }

  lemma {:induction false} ParentHeld(t: Tree, parent: int, s: int, lo: int, w: int) returns (z: int)
    requires t.Node? && t.size != s
    ensures Holds(t, ParentAt(t, parent, s, lo, w), z)
  {
    var half := Half(t, s < lo + w / 2);
    if half.Leaf? || half.size == s {
      z := t.size;
    } else if s < lo + w / 2 {
      z := ParentHeld(t.left, t.addr, s, lo, w / 2);
    } else {
      z := ParentHeld(t.right, t.addr, s, lo + w / 2, w / 2);
    }
  }

  /** The word of the parent that led to x now leads to the root of sub:
      XP->child[0] = R if it was child[0], and XP->child[1] = R otherwise. */
  ghost predicate ParentLeadsTo(m: Mem, m': Mem, xp: int, x: int, r: int) {
    && SameButChildren(m, m', xp)
    && Child0(m', xp) == (if Child0(m, xp) == x then r else Child0(m, xp))
    && Child1(m', xp) == (if Child0(m, xp) == x then Child1(m, xp) else r)
  }

  lemma ChildRootsDiffer(m: Mem, t: Tree, parent: int, idx: int, lo: int, w: int)
    requires t.Node? && Rep(m, t, parent, idx) && Spread(t) && Trie(t, lo, w)
    ensures Root(t.left) == Root(t.right) ==> t.left.Leaf? && t.right.Leaf?
  {
    if t.left.Node? && t.right.Node? {
      assert Holds(t.left, t.left.addr, t.left.size) && Holds(t.right, t.right.addr, t.right.size);
      assert Holds(t, t.left.addr, t.left.size);
      OtherApart(m, t, parent, idx, lo, w, false, t.left.addr, t.left.size);
      assert Apart(t.right.addr, t.left.addr);
    }
  }

  /** The words beside the path to the replaced subtree, and the parent word that led to it. */
  ghost predicate ReplacedIn(m: Mem, m': Mem, t: Tree, parent: int, idx: int, s: int, lo: int, w: int, sub': Tree)
  {
    var sub, xp := SubAt(t, s, lo, w), ParentAt(t, parent, s, lo, w);
    && sub.Node?
    && Rep(m', sub', xp, idx)
    && (t.Node? && t.size != s ==> ParentLeadsTo(m, m', xp, sub.addr, Root(sub')))
    && forall y, z | Holds(t, y, z) && !Holds(sub, y, z) && y != xp :: SameNode(m, m', y)
  }

  lemma ReplacedInHalf(m: Mem, m': Mem, t: Tree, parent: int, idx: int, s: int, lo: int, w: int, sub': Tree)
    requires t.Node? && t.size != s && ReplacedIn(m, m', t, parent, idx, s, lo, w, sub')
    requires var half := Half(t, s < lo + w / 2); half.Node? && half.size != s
    ensures ReplacedIn(m, m', Half(t, s < lo + w / 2), t.addr, idx, s, if s < lo + w / 2 then lo
              else lo + w / 2, w / 2, sub')
  {
    var half := Half(t, s < lo + w / 2);
    assert forall y, z | Holds(half, y, z) :: Holds(t, y, z);
  }

  lemma ReplaceHere(m: Mem, m': Mem, t: Tree, parent: int, idx: int, s: int, lo: int, w: int, sub': Tree)
    requires t.Node? && Rep(m, t, parent, idx) && Spread(t) && Trie(t, lo, w)
    requires t.size != s && ReplacedIn(m, m', t, parent, idx, s, lo, w, sub')
    requires var half := Half(t, s < lo + w / 2); half.Node? && half.size == s
    ensures Rep(m', WithHalf(t, s < lo + w / 2, sub'), parent, idx)
  {
    var goLeft := s < lo + w / 2;
    var half := Half(t, goLeft);
    assert SubAt(t, s, lo, w) == half && ParentAt(t, parent, s, lo, w) == t.addr;
    ReplaceBeside(m, m', t, parent, idx, s, lo, w);
    ChildRootsDiffer(m, t, parent, idx, lo, w);
    assert TreeNode(m, t, parent, idx);
    hide Trie, Spread, Holds, SubAt, ParentAt, Rep;
    SubtreeChanged(m, m', t, parent, idx, goLeft, sub');
  }

  lemma {:induction false} ReplaceRep(m: Mem, m': Mem, t: Tree, parent: int, idx: int, s: int, lo: int, w: int,
        sub': Tree)
    requires t.Node? && Rep(m, t, parent, idx) && Spread(t) && Trie(t, lo, w)
    requires ReplacedIn(m, m', t, parent, idx, s, lo, w, sub')
    ensures Rep(m', ReplaceAt(t, s, lo, w, sub'), parent, idx)
  {
    if t.size != s {
      var goLeft := s < lo + w / 2;
      var half := Half(t, goLeft);
      var lo' := if goLeft then lo else lo + w / 2;
      var half' := ReplaceAt(half, s, lo', w / 2, sub');
      assert ReplaceAt(t, s, lo, w, sub') == WithHalf(t, goLeft, half');
      assert SubAt(t, s, lo, w) == SubAt(half, s, lo', w / 2);
      assert half.Node? && TreeNode(m, half, t.addr, idx);
      if half.size == s {
        ReplaceHere(m, m', t, parent, idx, s, lo, w, sub');
      } else {
        SpreadChildren(t);
        assert Rep(m, half, t.addr, idx) && Trie(half, lo', w / 2) && TreeNode(m, t, parent, idx);
        assert Root(half') == Root(half);
        ReplacedInHalf(m, m', t, parent, idx, s, lo, w, sub');
        ReplaceBeside(m, m', t, parent, idx, s, lo, w);
        hide Trie, Spread, Holds, SubAt, ParentAt, Rep, ReplacedIn;
        ReplaceRep(m, m', half, t.addr, idx, s, lo', w / 2, sub');
        SubtreeChanged(m, m', t, parent, idx, goLeft, half');
      }
    }
  }

  /** Away from the path to the replaced subtree nothing changes. */
  lemma ReplaceBeside(m: Mem, m': Mem, t: Tree, parent: int, idx: int, s: int, lo: int, w: int)
    requires t.Node? && Rep(m, t, parent, idx) && Spread(t) && Trie(t, lo, w)
    requires SubAt(t, s, lo, w).Node? && t.size != s
    requires var sub, xp := SubAt(t, s, lo, w), ParentAt(t, parent, s, lo, w);
             forall y, z | Holds(t, y, z) && !Holds(sub, y, z) && y != xp :: SameNode(m, m', y)
    ensures var goLeft := s < lo + w / 2;
            && (ParentAt(t, parent, s, lo, w) != t.addr ==> SameNode(m, m', t.addr))
            && (Half(t, goLeft).Node? && Half(t, goLeft).size != s ==> ParentAt(t, parent, s, lo, w) != t.addr)
            && (forall y | y in t.ring :: SameNode(m, m', y))
            && var other := Half(t, !goLeft); forall y, z | Holds(other, y, z) :: SameNode(m, m', y)
  {
    var goLeft := s < lo + w / 2;
    var half, other := Half(t, goLeft), Half(t, !goLeft);
    var lo' := if goLeft then lo else lo + w / 2;
    var sub, xp := SubAt(t, s, lo, w), ParentAt(t, parent, s, lo, w);
    assert sub == SubAt(half, s, lo', w / 2) && xp == ParentAt(half, t.addr, s, lo', w / 2);
    SpreadChildren(t);
    SubHeld(m, half, t.addr, idx, s, lo', w / 2);
    var z0 := t.size;
    if half.size != s { z0 := ParentHeld(half, t.addr, s, lo', w / 2); }
    assert Holds(t, t.addr, t.size);
    assert forall y | y in t.ring :: Holds(t, y, t.size);
    assert forall y, z | Holds(other, y, z) :: Holds(t, y, z);
    forall y, z | Holds(t, y, z) && (z == t.size || Holds(other, y, z))
      ensures !Holds(sub, y, z) && (half.size != s ==> y != xp)
    {
      OtherApart(m, t, parent, idx, lo, w, goLeft, y, z);
      assert Holds(half, y, z) ==> Apart(y, y);
      assert half.size != s ==> Apart(xp, y);
    }
    forall y, z | Holds(other, y, z) || (y in t.ring && z == t.size) ensures y != t.addr {
      if Holds(other, y, z) { ChildDistinct(m, t, parent, idx, y, z); }
    }
  }

  lemma RingIndex(m: Mem, t: Tree, x: int) returns (k: nat)
    requires t.Node? && Ring(m, [t.addr] + t.ring)
    requires x in t.ring
    ensures k < |t.ring| && t.ring[k] == x
    ensures var r := [t.addr] + t.ring;
            r[k + 1] == x && Fd(m, x) == Next(r, k + 1) && Bk(m, x) == Prev(r, k + 1) != x
  {
    k :| 0 <= k < |t.ring| && t.ring[k] == x;
    var r := [t.addr] + t.ring;
    assert r[k + 1] == x;
    assert Linked(m, r, k + 1) && r[k] != r[k + 1];
  }

  lemma UnchainRing(m: Mem, t: Tree, x: int)
    requires t.Node? && Ring(m, [t.addr] + t.ring) && Distinct(t.ring)
    requires x in t.ring
    ensures Ring(Join(m, Fd(m, x), Bk(m, x)), [t.addr] + Without(t.ring, x))
    ensures Bk(m, x) != x && Chained(t, Fd(m, x)) && Chained(t, Bk(m, x))
  {
    hide Ring, Linked, Fd, Bk, Join, Without, Distinct, Next, Prev;
    var r := [t.addr] + t.ring;
    var k := RingIndex(m, t, x);
    UnlinkRing(m, r, k + 1);
    WithoutAt(t.ring, k);
    assert r[..k + 1] + r[k + 2..] == [t.addr] + Without(t.ring, x);
    RingMembers(t, k + 1);
  }

  /** Memory after a chained node is taken out of its ring. */
  lemma UnchainRep(m: Mem, t: Tree, parent: int, idx: int, x: int, lo: int, w: int)
    requires t.Node? && Rep(m, t, parent, idx) && Spread(t) && Trie(t, lo, w)
    requires x in t.ring
    ensures Rep(Join(m, Fd(m, x), Bk(m, x)), RemoveAt(t, x), parent, idx)
    ensures Parent(m, x) == 0 && Bk(m, x) != x
    ensures Chained(t, Fd(m, x)) && Chained(t, Bk(m, x))
  {
    var f, b := Fd(m, x), Bk(m, x);
    var m' := Join(m, f, b);
    var t' := t.(ring := Without(t.ring, x));
    assert t' == RemoveAt(t, x);
    UnchainRing(m, t, x);
    assert ChainNode(m, x, t.size, idx);
    JoinNodes(m, t, parent, idx, lo, w, f, b);
    WithoutElements(t.ring, x);
    forall y | y in t'.ring ensures ChainNode(m', y, t.size, idx) {
      assert Chained(t, y);
      assert ChainNode(m, y, t.size, idx);
    }
    assert Chained(t, t.addr);
    assert Rep(m, t.left, t.addr, idx) && Rep(m, t.right, t.addr, idx);
    hide Trie, Spread, Holds, Join, Without, Ring;
    assert TreeNode(m', t', parent, idx);
    RepFrame(m, m', t.left, t.addr, idx);
    RepFrame(m, m', t.right, t.addr, idx);
  }

  lemma RingMembers(t: Tree, i: int)
    requires t.Node?
    requires var r := [t.addr] + t.ring; 0 <= i < |r|
    ensures var r := [t.addr] + t.ring; Chained(t, Next(r, i)) && Chained(t, Prev(r, i))
  {
    var r := [t.addr] + t.ring;
    assert forall k | 1 <= k < |r| :: r[k] in t.ring;
  }

  lemma {:induction false} WithoutAt(r: seq<int>, i: int)
    requires 0 <= i < |r| && Distinct(r)
    ensures Without(r, r[i]) == r[..i] + r[i + 1..]
  {
    if i > 0 {
      var rest := r[1..];
      assert forall k | 0 <= k < |rest| :: rest[k] == r[k + 1];
      WithoutAt(rest, i - 1);
      assert r[i] == rest[i - 1];
      assert [r[0]] + rest[..i - 1] == r[..i];
      assert rest[i..] == r[i + 1..];
    }
  }

  /** Joining two nodes of a ring changes only fd and bk words of the chain at this size. */
  lemma JoinNodes(m: Mem, t: Tree, parent: int, idx: int, lo: int, w: int, f: int, b: int)
    requires t.Node? && Rep(m, t, parent, idx) && Spread(t) && Trie(t, lo, w)
    requires Chained(t, f) && Chained(t, b)
    ensures var m' := Join(m, f, b);
            && (forall y, z | Holds(t.left, y, z) :: SameNode(m, m', y))
            && (forall y, z | Holds(t.right, y, z) :: SameNode(m, m', y))
            && (forall y | Chained(t, y) :: OnlyLinks(m, m', y))
  {
    var m' := Join(m, f, b);
    forall y, z | Holds(t.left, y, z) || Holds(t.right, y, z) ensures SameNode(m, m', y) {
      ChildrenApart(m, t, parent, idx, y, z);
      StoreApart(m, f, 12, b, y);
      StoreApart(m[f + 12 := b], b, 8, f, y);
    }
    forall y | Chained(t, y) ensures OnlyLinks(m, m', y) {
      assert Holds(t, f, t.size) && Holds(t, b, t.size) && Holds(t, y, t.size);
      JoinOther(m, f, b, y);
    }
  }

  ghost predicate OnlyLinks(m: Mem, m': Mem, y: int) {
    && Head(m', y) == Head(m, y) && Index(m', y) == Index(m, y) && Parent(m', y) == Parent(m, y)
    && Child0(m', y) == Child0(m, y) && Child1(m', y) == Child1(m, y)
  }

  lemma JoinOther(m: Mem, f: int, b: int, y: int)
    requires (y == f || Apart(f, y)) && (y == b || Apart(b, y))
    ensures OnlyLinks(m, Join(m, f, b), y)
  {
    hide Rd;
    var m1 := m[f + 12 := b];
    StoreOther(m, f, 12, b, y, 4);
    StoreOther(m, f, 12, b, y, 16);
    StoreOther(m, f, 12, b, y, 20);
    StoreOther(m, f, 12, b, y, 24);
    StoreOther(m, f, 12, b, y, 28);
    StoreOther(m1, b, 8, f, y, 4);
    StoreOther(m1, b, 8, f, y, 16);
    StoreOther(m1, b, 8, f, y, 20);
    StoreOther(m1, b, 8, f, y, 24);
    StoreOther(m1, b, 8, f, y, 28);
  }
}
