/** The bitwise tries kept in treebins, as values.

    A subtree is responsible for the w sizes lo, lo + 8, ... below lo + w. Its left child is
    responsible for the lower half of that range and its right child for the upper half; the
    node at its root may have any size of the whole range. */
module Tries {
  import opened Sequences

  /** A node stands for all free chunks of one size: the tree member at addr and the chunks
      chained off it through fd, in order. */
  datatype Tree = Leaf | Node(addr: int, size: int, ring: seq<int>, left: Tree, right: Tree)

  predicate Chained(t: Tree, x: int)
    requires t.Node?
  {
    x == t.addr || x in t.ring
  }

  predicate Holds(t: Tree, x: int, s: int) {
    t.Node? && ((s == t.size && Chained(t, x)) || Holds(t.left, x, s) || Holds(t.right, x, s))
  }

  predicate HasSize(t: Tree, s: int) {
    t.Node? && (s == t.size || HasSize(t.left, s) || HasSize(t.right, s))
  }

  /** Eight times a power of two: a range that can be halved until one chunk size is left. */
  predicate Width(w: int)
    decreases w
  {
    w == 8 || (w > 8 && w % 16 == 0 && Width(w / 2))
  }

  /** The trie invariant: sizes sit in the half their bit selects, one tree member per size. */
  ghost predicate Trie(t: Tree, lo: int, w: int)
    decreases t
  {
    t.Leaf? ||
    (&& Width(w) && lo % 8 == 0
     && lo <= t.size < lo + w && t.size % 8 == 0
     && Distinct(t.ring) && t.addr !in t.ring
     && !HasSize(t.left, t.size) && !HasSize(t.right, t.size)
     && (w == 8 ==> t.left.Leaf? && t.right.Leaf?)
     && Trie(t.left, lo, w / 2)
     && Trie(t.right, lo + w / 2, w / 2))
  }

  lemma {:induction false} SizesInRange(t: Tree, lo: int, w: int, s: int)
    requires Trie(t, lo, w) && HasSize(t, s)
    ensures lo <= s < lo + w && s % 8 == 0
  {
    if s != t.size {
      if HasSize(t.left, s) {
        SizesInRange(t.left, lo, w / 2, s);
      } else {
        SizesInRange(t.right, lo + w / 2, w / 2, s);
      }
    }
  }

  lemma {:induction false} HoldsHasSize(t: Tree, x: int, s: int)
    requires Holds(t, x, s)
    ensures HasSize(t, s)
  {
    if !(s == t.size && Chained(t, x)) {
      if Holds(t.left, x, s) { HoldsHasSize(t.left, x, s); } else { HoldsHasSize(t.right, x, s); }
    }
  }

  lemma {:induction false} HasSizeHolds(t: Tree, s: int) returns (x: int)
    requires HasSize(t, s)
    ensures Holds(t, x, s)
  {
    if s == t.size {
      x := t.addr;
    } else if HasSize(t.left, s) {
      x := HasSizeHolds(t.left, s);
    } else {
      x := HasSizeHolds(t.right, s);
    }
  }

  /** The most nodes on a path. */
  function Height(t: Tree): nat {
    if t.Leaf? then 0 else 1 + if Height(t.left) >= Height(t.right) then Height(t.left) else Height(t.right)
  }

  lemma HeightBelow(t: Tree)
    requires t.Node?
    ensures Height(t.left) + 1 <= Height(t) && Height(t.right) + 1 <= Height(t)
    ensures Height(t) >= 1
  {
  }

  // ---------------------------------------------------------------- insertion

  /** insert_large_chunk on values: walk the bits of s down to a node of that size, chaining
      x behind it, or to a missing child, which x becomes. */
  function Insert(t: Tree, x: int, s: int, lo: int, w: int): Tree {
    match t
    case Leaf => Node(x, s, [], Leaf, Leaf)
    case Node(addr, size, ring, left, right) =>
      if s == size then t.(ring := [x] + ring)
      else if s < lo + w / 2 then t.(left := Insert(left, x, s, lo, w / 2))
      else t.(right := Insert(right, x, s, lo + w / 2, w / 2))
  }

  lemma {:induction false} InsertSizes(t: Tree, x: int, s: int, lo: int, w: int, z: int)
    ensures HasSize(Insert(t, x, s, lo, w), z) <==> HasSize(t, z) || z == s
  {
    match t
    case Leaf =>
    case Node(addr, size, ring, left, right) =>
      if s != size {
        if s < lo + w / 2 {
          InsertSizes(left, x, s, lo, w / 2, z);
        } else {
          InsertSizes(right, x, s, lo + w / 2, w / 2, z);
        }
      }
  }

  lemma SingletonTrie(x: int, s: int, lo: int, w: int)
    requires Width(w) && lo % 8 == 0 && lo <= s < lo + w && s % 8 == 0
    ensures Trie(Node(x, s, [], Leaf, Leaf), lo, w)
  {
    assert Trie(Leaf, lo, w / 2) && Trie(Leaf, lo + w / 2, w / 2) && !HasSize(Leaf, s);
  }

  lemma ChainTrie(t: Tree, x: int, lo: int, w: int)
    requires t.Node? && Trie(t, lo, w) && !Chained(t, x)
    ensures Trie(t.(ring := [x] + t.ring), lo, w)
  {
    NoRepeatsCons(x, t.ring);
  }

  lemma OneSizeInEight(lo: int, s: int, z: int)
    requires lo % 8 == 0 && s % 8 == 0 && z % 8 == 0
    requires lo <= s < lo + 8 && lo <= z < lo + 8
    ensures s == z
  {
  }

  lemma HalfOf(lo: int, w: int)
    requires w % 16 == 0 && lo % 8 == 0
    ensures w / 2 + w / 2 == w && (lo + w / 2) % 8 == 0
  {
  }

  /** Two different sizes in a range: the range can be halved. */
  lemma Halve(lo: int, w: int, s: int, z: int)
    requires Width(w) && lo % 8 == 0
    requires lo <= s < lo + w && s % 8 == 0
    requires lo <= z < lo + w && z % 8 == 0 && s != z
    ensures w > 8 && Width(w / 2) && (lo + w / 2) % 8 == 0 && w / 2 + w / 2 == w
  {
    assert w == 8 || (w > 8 && w % 16 == 0 && Width(w / 2));
    hide Width;
    if w == 8 { OneSizeInEight(lo, s, z); }
    HalfOf(lo, w);
  }

  lemma ReplaceLeft(t: Tree, left: Tree, lo: int, w: int)
    requires t.Node? && Trie(t, lo, w) && w != 8
    requires Trie(left, lo, w / 2) && !HasSize(left, t.size)
    ensures Trie(t.(left := left), lo, w)
  {
  }

  lemma ReplaceRight(t: Tree, right: Tree, lo: int, w: int)
    requires t.Node? && Trie(t, lo, w) && w != 8
    requires Trie(right, lo + w / 2, w / 2) && !HasSize(right, t.size)
    ensures Trie(t.(right := right), lo, w)
  {
  }

  lemma {:induction false} InsertTrie(t: Tree, x: int, s: int, lo: int, w: int)
    requires Trie(t, lo, w) && Width(w) && lo % 8 == 0
    requires lo <= s < lo + w && s % 8 == 0
    requires !Holds(t, x, s)
    ensures Trie(Insert(t, x, s, lo, w), lo, w)
  {
    hide Width;
    if t.Leaf? {
      hide Trie, Holds, HasSize;
      SingletonTrie(x, s, lo, w);
    } else if s == t.size {
      assert !Chained(t, x);
      hide Trie, Holds, HasSize, Chained;
      ChainTrie(t, x, lo, w);
    } else {
      Halve(lo, w, s, t.size);
      assert Trie(t.left, lo, w / 2) && Trie(t.right, lo + w / 2, w / 2);
      assert !Holds(t.left, x, s) && !Holds(t.right, x, s);
      hide Trie, Holds, HasSize;
      if s < lo + w / 2 {
        InsertTrie(t.left, x, s, lo, w / 2);
        InsertSizes(t.left, x, s, lo, w / 2, t.size);
        ReplaceLeft(t, Insert(t.left, x, s, lo, w / 2), lo, w);
      } else {
        InsertTrie(t.right, x, s, lo + w / 2, w / 2);
        InsertSizes(t.right, x, s, lo + w / 2, w / 2, t.size);
        ReplaceRight(t, Insert(t.right, x, s, lo + w / 2, w / 2), lo, w);
      }
    }
  }

  /** Insertion adds exactly one chunk. */
  lemma {:induction false} InsertHolds(t: Tree, x: int, s: int, lo: int, w: int, y: int, z: int)
    ensures Holds(Insert(t, x, s, lo, w), y, z) <==> Holds(t, y, z) || (y == x && z == s)
  {
    match t
    case Leaf =>
    case Node(addr, size, ring, left, right) =>
      if s == size {
        assert y in [x] + ring <==> y == x || y in ring;
      } else if s < lo + w / 2 {
        InsertHolds(left, x, s, lo, w / 2, y, z);
      } else {
        InsertHolds(right, x, s, lo + w / 2, w / 2, y, z);
      }
  }

  // ------------------------------------------------------------------ removal

  /** The leaf reached by following child[1] where there is one and child[0] otherwise. */
  function Rightmost(t: Tree): (r: Tree)
    requires t.Node?
    ensures r.Node?
  {
    if t.right.Node? then Rightmost(t.right)
    else if t.left.Node? then Rightmost(t.left)
    else t
  }

  function Pruned(t: Tree): Tree
    requires t.Node?
  {
    if t.right.Node? then t.(right := Pruned(t.right))
    else if t.left.Node? then t.(left := Pruned(t.left))
    else Leaf
  }

  /** Removal of a tree member that is alone of its size: its rightmost descendant leaf takes its place. */
  function RemoveHead(t: Tree): Tree
    requires t.Node?
  {
    if t.right.Node? then
      var r := Rightmost(t.right);
      Node(r.addr, r.size, r.ring, t.left, Pruned(t.right))
    else if t.left.Node? then
      var r := Rightmost(t.left);
      Node(r.addr, r.size, r.ring, Pruned(t.left), t.right)
    else Leaf
  }

  function Without(r: seq<int>, x: int): seq<int> {
    if r == [] then [] else if r[0] == x then r[1..] else [r[0]] + Without(r[1..], x)
  }

  /** unlink_large_chunk at the node of x's size. */
  function RemoveAt(t: Tree, x: int): Tree
    requires t.Node?
  {
    if x != t.addr then t.(ring := Without(t.ring, x))
    else if t.ring == [] then RemoveHead(t)
    else
      var last := |t.ring| - 1;
      t.(addr := t.ring[last], ring := t.ring[..last])
  }

  function Remove(t: Tree, x: int, s: int, lo: int, w: int): Tree {
    match t
    case Leaf => Leaf
    case Node(addr, size, ring, left, right) =>
      if s == size then RemoveAt(t, x)
      else if s < lo + w / 2 then t.(left := Remove(left, x, s, lo, w / 2))
      else t.(right := Remove(right, x, s, lo + w / 2, w / 2))
  }

  lemma {:induction false} PrunedSizes(t: Tree, lo: int, w: int, z: int)
    requires t.Node? && Trie(t, lo, w)
    ensures HasSize(Pruned(t), z) <==> HasSize(t, z) && z != Rightmost(t).size
    ensures HasSize(t, Rightmost(t).size)
  {
    if t.right.Node? {
      PrunedSizes(t.right, lo + w / 2, w / 2, z);
      var q := Rightmost(t.right).size;
      SizesInRange(t.right, lo + w / 2, w / 2, q);
      if HasSize(t.left, q) { SizesInRange(t.left, lo, w / 2, q); }
    } else if t.left.Node? {
      PrunedSizes(t.left, lo, w / 2, z);
    }
  }

  lemma {:induction false} PrunedTrie(t: Tree, lo: int, w: int)
    requires t.Node? && Trie(t, lo, w)
    ensures Trie(Pruned(t), lo, w)
  {
    if t.right.Node? {
      PrunedTrie(t.right, lo + w / 2, w / 2);
      PrunedSizes(t.right, lo + w / 2, w / 2, t.size);
    } else if t.left.Node? {
      PrunedTrie(t.left, lo, w / 2);
      PrunedSizes(t.left, lo, w / 2, t.size);
    }
  }

  lemma {:induction false} PrunedHolds(t: Tree, lo: int, w: int, y: int, z: int)
    requires t.Node? && Trie(t, lo, w)
    ensures Holds(Pruned(t), y, z) <==> Holds(t, y, z) && z != Rightmost(t).size
    ensures z == Rightmost(t).size ==> (Holds(t, y, z) <==> Chained(Rightmost(t), y))
    ensures Distinct(Rightmost(t).ring) && Rightmost(t).addr !in Rightmost(t).ring
  {
    PrunedSizes(t, lo, w, z);
    if t.right.Node? {
      PrunedHolds(t.right, lo + w / 2, w / 2, y, z);
      PrunedSizes(t.right, lo + w / 2, w / 2, z);
      if Holds(t.left, y, z) {
        HoldsHasSize(t.left, y, z);
        SizesInRange(t.left, lo, w / 2, z);
        SizesInRange(t.right, lo + w / 2, w / 2, Rightmost(t.right).size);
      }
    } else if t.left.Node? {
      PrunedHolds(t.left, lo, w / 2, y, z);
      PrunedSizes(t.left, lo, w / 2, z);
    }
  }

  lemma RemoveHeadTrie(t: Tree, lo: int, w: int)
    requires t.Node? && Trie(t, lo, w)
    ensures Trie(RemoveHead(t), lo, w)
    ensures forall z :: HasSize(RemoveHead(t), z) <==> HasSize(t, z) && z != t.size
  {
    if t.right.Node? {
      var q := Rightmost(t.right).size;
      PrunedTrie(t.right, lo + w / 2, w / 2);
      PrunedHolds(t.right, lo + w / 2, w / 2, 0, q);
      PrunedSizes(t.right, lo + w / 2, w / 2, q);
      SizesInRange(t.right, lo + w / 2, w / 2, q);
      if HasSize(t.left, q) { SizesInRange(t.left, lo, w / 2, q); }
      forall z ensures HasSize(RemoveHead(t), z) <==> HasSize(t, z) && z != t.size {
        PrunedSizes(t.right, lo + w / 2, w / 2, z);
      }
    } else if t.left.Node? {
      var q := Rightmost(t.left).size;
      PrunedTrie(t.left, lo, w / 2);
      PrunedHolds(t.left, lo, w / 2, 0, q);
      PrunedSizes(t.left, lo, w / 2, q);
      SizesInRange(t.left, lo, w / 2, q);
      forall z ensures HasSize(RemoveHead(t), z) <==> HasSize(t, z) && z != t.size {
        PrunedSizes(t.left, lo, w / 2, z);
      }
    }
  }

  lemma RemoveHeadHolds(t: Tree, lo: int, w: int, y: int, z: int)
    requires t.Node? && Trie(t, lo, w)
    ensures Holds(RemoveHead(t), y, z) <==> Holds(t, y, z) && z != t.size
  {
    if Holds(t.left, y, z) { HoldsHasSize(t.left, y, z); }
    if Holds(t.right, y, z) { HoldsHasSize(t.right, y, z); }
    if t.right.Node? {
      PrunedHolds(t.right, lo + w / 2, w / 2, y, z);
      PrunedSizes(t.right, lo + w / 2, w / 2, z);
    } else if t.left.Node? {
      PrunedHolds(t.left, lo, w / 2, y, z);
      PrunedSizes(t.left, lo, w / 2, z);
    }
  }

  lemma NoRepeatsCons(x: int, r: seq<int>)
    requires Distinct(r) && x !in r
    ensures Distinct([x] + r)
  {
    var r' := [x] + r;
    assert forall k | 1 <= k < |r'| :: r'[k] == r[k - 1];
  }

  lemma {:induction false} WithoutElements(r: seq<int>, x: int)
    requires Distinct(r)
    ensures Distinct(Without(r, x))
    ensures forall y :: y in Without(r, x) <==> y in r && y != x
  {
    if r != [] {
      var rest := r[1..];
      assert Distinct(rest);
      assert forall k | 0 <= k < |rest| :: rest[k] == r[k + 1];
      assert r == [r[0]] + rest;
      WithoutElements(rest, x);
      if r[0] != x {
        var rest' := Without(rest, x);
        NoRepeatsCons(r[0], rest');
      }
    }
  }

  lemma RemoveAtHolds(t: Tree, x: int, lo: int, w: int, y: int, z: int)
    requires t.Node? && Trie(t, lo, w) && Chained(t, x)
    ensures Holds(RemoveAt(t, x), y, z) <==> Holds(t, y, z) && !(y == x && z == t.size)
  {
    if Holds(t.left, y, z) { HoldsHasSize(t.left, y, z); }
    if Holds(t.right, y, z) { HoldsHasSize(t.right, y, z); }
    if x != t.addr {
      WithoutElements(t.ring, x);
    } else if t.ring == [] {
      RemoveHeadHolds(t, lo, w, y, z);
    } else {
      var last := |t.ring| - 1;
      assert t.ring == t.ring[..last] + [t.ring[last]];
    }
  }

  lemma RemoveAtTrie(t: Tree, x: int, lo: int, w: int)
    requires t.Node? && Trie(t, lo, w) && Chained(t, x)
    ensures Trie(RemoveAt(t, x), lo, w)
    ensures forall z :: HasSize(RemoveAt(t, x), z) ==> HasSize(t, z)
  {
    if x != t.addr {
      WithoutElements(t.ring, x);
    } else if t.ring == [] {
      RemoveHeadTrie(t, lo, w);
    } else {
      var last := |t.ring| - 1;
      assert Distinct(t.ring[..last]) && t.ring[last] !in t.ring[..last];
    }
  }

  /** Removal keeps the trie invariant and takes away exactly one chunk. */
  lemma {:induction false} RemoveTrie(t: Tree, x: int, s: int, lo: int, w: int)
    requires Trie(t, lo, w) && Holds(t, x, s)
    ensures Trie(Remove(t, x, s, lo, w), lo, w)
    ensures forall z :: HasSize(Remove(t, x, s, lo, w), z) ==> HasSize(t, z)
  {
    HoldsHasSize(t, x, s);
    if s == t.size {
      AtItsSize(t, x, s, lo, w);
      RemoveAtTrie(t, x, lo, w);
    } else {
      Descend(t, x, s, lo, w);
      if s < lo + w / 2 {
        RemoveTrie(t.left, x, s, lo, w / 2);
      } else {
        RemoveTrie(t.right, x, s, lo + w / 2, w / 2);
      }
    }
  }

  lemma {:induction false} RemoveHolds(t: Tree, x: int, s: int, lo: int, w: int, y: int, z: int)
    requires Trie(t, lo, w) && Holds(t, x, s)
    ensures Holds(Remove(t, x, s, lo, w), y, z) <==> Holds(t, y, z) && !(y == x && z == s)
  {
    if s == t.size {
      AtItsSize(t, x, s, lo, w);
      RemoveAtHolds(t, x, lo, w, y, z);
    } else {
      Descend(t, x, s, lo, w);
      OtherHalf(t, x, s, lo, w);
      if s < lo + w / 2 {
        RemoveHolds(t.left, x, s, lo, w / 2, y, z);
      } else {
        RemoveHolds(t.right, x, s, lo + w / 2, w / 2, y, z);
      }
      hide Trie;
    }
  }

  /** A size stands in the half that its bit selects and not in the other. */
  lemma OtherHalf(t: Tree, x: int, s: int, lo: int, w: int)
    requires t.Node? && Trie(t, lo, w)
    ensures s < lo + w / 2 ==> !Holds(t.right, x, s)
    ensures s >= lo + w / 2 ==> !Holds(t.left, x, s)
  {
    if Holds(t.right, x, s) {
      HoldsHasSize(t.right, x, s);
      SizesInRange(t.right, lo + w / 2, w / 2, s);
    }
    if Holds(t.left, x, s) {
      HoldsHasSize(t.left, x, s);
      SizesInRange(t.left, lo, w / 2, s);
    }
  }

  /** A chunk of the root's size is chained at the root. */
  lemma AtItsSize(t: Tree, x: int, s: int, lo: int, w: int)
    requires Trie(t, lo, w) && Holds(t, x, s) && s == t.size
    ensures Chained(t, x)
  {
    if Holds(t.left, x, s) { HoldsHasSize(t.left, x, s); }
    if Holds(t.right, x, s) { HoldsHasSize(t.right, x, s); }
  }

  /** A chunk of another size is in the half its next bit selects. */
  lemma Descend(t: Tree, x: int, s: int, lo: int, w: int)
    requires Trie(t, lo, w) && Holds(t, x, s) && s != t.size
    ensures w > 8
    ensures if s < lo + w / 2 then Holds(t.left, x, s) else Holds(t.right, x, s)
  {
    if Holds(t.left, x, s) {
      HoldsHasSize(t.left, x, s);
      SizesInRange(t.left, lo, w / 2, s);
    } else {
      HoldsHasSize(t.right, x, s);
      SizesInRange(t.right, lo + w / 2, w / 2, s);
    }
  }

  // ------------------------------------------------------------------- search

  /** leftmost_child. */
  function LeftmostChild(t: Tree): Tree
    requires t.Node?
  {
    if t.left.Node? then t.left else t.right
  }

  /** The smallest size met on the way to the leftmost leaf. */
  function LeastSize(t: Tree): int
    requires t.Node?
  {
    var c := LeftmostChild(t);
    if c.Leaf? then t.size
    else
      var s := LeastSize(c);
      if s < t.size then s else t.size
  }

  lemma {:induction false} LeastSizeHeld(t: Tree)
    requires t.Node?
    ensures HasSize(t, LeastSize(t))
  {
    var c := LeftmostChild(t);
    if c.Node? {
      LeastSizeHeld(c);
    }
  }

  /** The leftmost walk passes the smallest chunk of the whole tree. */
  lemma {:induction false} LeastSizeIsLeast(t: Tree, lo: int, w: int, z: int)
    requires Trie(t, lo, w) && HasSize(t, z)
    ensures LeastSize(t) <= z
  {
    if t.left.Node? {
      if HasSize(t.left, z) {
        LeastSizeIsLeast(t.left, lo, w / 2, z);
      } else if z != t.size {
        LeastSizeHeld(t.left);
        SizesInRange(t.left, lo, w / 2, LeastSize(t.left));
        SizesInRange(t.right, lo + w / 2, w / 2, z);
      }
    } else if HasSize(t.right, z) {
      LeastSizeIsLeast(t.right, lo + w / 2, w / 2, z);
    }
  }
}
