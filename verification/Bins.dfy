/** The free chunks that are kept in bins: what the 32 small bins, the 32 treebins and the two
    bin maps of malloc_state have to do with them. */
module Bins {
  import opened Sequences
  import opened Words
  import opened Rings
  import opened Tries
  import opened TrieMemory
  import opened BinIndex
  import opened BinMaps

  /** The arrays smallbins and treebins of malloc_state, which lie below the heap. Their address
      is fixed when the kernel is linked. */
  const SMALLBINS := 0x12_0028
  const TREEBINS := SMALLBINS + 264
  const HEAP_BASE := 0x2000_0000

  const NSMALLBINS := 32

  /** smallbin_at: repositioned so that the two words of bin i are the fd and bk of a chunk. */
  function SmallBin(i: int): int { SMALLBINS + 8 * i }

  /** treebin_at. */
  function TreeBin(i: int): int { TREEBINS + 4 * i }

  predicate IsSmall(s: int) { s < 256 }

  /** Sizes of binned chunks, by address. */
  type Sizes = map<int, int>

  ghost predicate Blocks(binned: Sizes) {
    && (forall x | x in binned :: HEAP_BASE <= x && x % 8 == 0 && 16 <= binned[x] < TWO32 && binned[x] % 8 == 0)
    && (forall x, y | x in binned && y in binned && x < y :: x + binned[x] <= y)
  }

  /** The small chunks and no others are in the rings, each in that of its size. */
  ghost predicate Filed(small: seq<seq<int>>, binned: Sizes)
    requires |small| == NSMALLBINS
  {
    && (forall i, x | 0 <= i < NSMALLBINS && x in small[i] :: x in binned && binned[x] == 8 * i)
    && (forall x | x in binned && 0 <= binned[x] < 256 :: x in small[binned[x] / 8])
  }

  ghost predicate SmallOK(m: Mem, smallmap: BinMap, small: seq<seq<int>>, binned: Sizes) {
    && |small| == NSMALLBINS
    && (forall i | 0 <= i < NSMALLBINS :: smallmap[i] <==> small[i] != [])
    && (forall i | 0 <= i < NSMALLBINS :: small[i] != [] ==> Ring(m, [SmallBin(i)] + small[i]))
    && Filed(small, binned)
  }

  ghost predicate TreeBinOK(m: Mem, marked: bool, t: Tree, i: int)
    requires 0 <= i < NTREEBINS
  {
    && (marked <==> t.Node?)
    && Rd(m, TreeBin(i)) == Root(t)
    && Rep(m, t, TreeBin(i), i)
    && Trie(t, BinLo(i), BinWidth(i))
  }

  /** Tree i holds binned chunks only, of sizes that belong there. */
  ghost predicate TreeContents(t: Tree, i: int, binned: Sizes) {
    forall x, s | Holds(t, x, s) :: x in binned && binned[x] == s && 256 <= s && TreeIndex(s) == i
  }

  ghost predicate InItsTree(trees: seq<Tree>, x: int, s: int) {
    256 <= s && var i := TreeIndex(s); 0 <= i < |trees| && Holds(trees[i], x, s)
  }

  ghost predicate TreesOK(m: Mem, treemap: BinMap, trees: seq<Tree>, binned: Sizes) {
    && |trees| == NTREEBINS
    && (forall i | 0 <= i < NTREEBINS :: TreeBinOK(m, treemap[i], trees[i], i))
    && (forall i | 0 <= i < NTREEBINS :: TreeContents(trees[i], i, binned))
    && (forall x | x in binned && 256 <= binned[x] :: InItsTree(trees, x, binned[x]))
  }

  /** The words of binned chunks that only the bins read: everything between head and foot. */
  ghost predicate Interior(binned: Sizes, a: int) {
    exists x :: x in binned && x + 8 <= a < x + binned[x]
  }

  /** Outside the bins and the interiors of binned chunks no word of the heap changed. */
  ghost predicate BinsFrame(m: Mem, m': Mem, binned: Sizes) {
    forall a | HEAP_BASE <= a && !Interior(binned, a) :: Rd(m', a) == Rd(m, a)
  }

  // -------------------------------------------------------------------- frames

  lemma SmallFrame(m: Mem, m': Mem, smallmap: BinMap, small: seq<seq<int>>, binned: Sizes)
    requires SmallOK(m, smallmap, small, binned)
    requires forall i | 0 <= i < NSMALLBINS ::
              Fd(m', SmallBin(i)) == Fd(m, SmallBin(i)) && Bk(m', SmallBin(i)) == Bk(m, SmallBin(i))
    requires forall x | x in binned && binned[x] < 256 :: Fd(m', x) == Fd(m, x) && Bk(m', x) == Bk(m, x)
    ensures SmallOK(m', smallmap, small, binned)
  {
    forall i | 0 <= i < NSMALLBINS && small[i] != [] ensures Ring(m', [SmallBin(i)] + small[i]) {
      var r := [SmallBin(i)] + small[i];
      forall x | x in r ensures Fd(m', x) == Fd(m, x) && Bk(m', x) == Bk(m, x) {
        if x != SmallBin(i) { assert x in small[i]; }
      }
      RingFrame(m, m', r);
    }
  }

  lemma TreesFrame(m: Mem, m': Mem, treemap: BinMap, trees: seq<Tree>, binned: Sizes)
    requires TreesOK(m, treemap, trees, binned)
    requires forall i | 0 <= i < NTREEBINS :: Rd(m', TreeBin(i)) == Rd(m, TreeBin(i))
    requires forall x | x in binned && 256 <= binned[x] :: SameNode(m, m', x)
    ensures TreesOK(m', treemap, trees, binned)
  {
    hide TreeIndex, Trie;
    forall i | 0 <= i < NTREEBINS ensures TreeBinOK(m', treemap[i], trees[i], i) {
      assert TreeBinOK(m, treemap[i], trees[i], i) && TreeContents(trees[i], i, binned);
      forall x, s | Holds(trees[i], x, s) ensures SameNode(m, m', x) {
        assert x in binned && binned[x] == s;
      }
      RepFrame(m, m', trees[i], TreeBin(i), i);
    }
  }

  lemma TreeSpread(m: Mem, treemap: BinMap, trees: seq<Tree>, binned: Sizes, i: int)
    requires TreesOK(m, treemap, trees, binned) && Blocks(binned) && 0 <= i < NTREEBINS
    ensures Spread(trees[i])
    ensures AllApart(trees[i], TreeBin(i) - 16)
  {
    hide TreeIndex, Trie, Rep;
    assert TreeContents(trees[i], i, binned);
    forall x, s, y, z | Holds(trees[i], x, s) && Holds(trees[i], y, z) && x != y ensures Apart(x, y) {
      assert x in binned && y in binned && binned[x] >= 256 && binned[y] >= 256;
    }
    forall x, s | Holds(trees[i], x, s) ensures Apart(x, TreeBin(i) - 16) {
      assert x in binned;
    }
  }

  // ---------------------------------------------------------------- small bins

  /** Words that operations on small bins may write: the bin headers and the links of small chunks. */
  ghost predicate SmallLink(binned: Sizes, a: int) {
    || SMALLBINS + 8 <= a < TREEBINS
    || exists x :: x in binned && binned[x] < 256 && (a == x + 8 || a == x + 12)
  }

  ghost predicate SmallChange(m: Mem, m': Mem, binned: Sizes) {
    forall a :: SmallLink(binned, a) || Rd(m', a) == Rd(m, a)
  }

  lemma SmallChangeFrame(m: Mem, m': Mem, binned: Sizes)
    requires Blocks(binned) && SmallChange(m, m', binned)
    ensures BinsFrame(m, m', binned)
    ensures forall i | 0 <= i < NTREEBINS :: Rd(m', TreeBin(i)) == Rd(m, TreeBin(i))
    ensures forall x | x in binned && 256 <= binned[x] :: SameNode(m, m', x)
  {
    forall a | HEAP_BASE <= a && !Interior(binned, a) ensures Rd(m', a) == Rd(m, a) {
      LinkInside(binned, a);
    }
    forall x | x in binned && 256 <= binned[x] ensures SameNode(m, m', x) {
      NoSmallLink(binned, x, 4);
      NoSmallLink(binned, x, 8);
      NoSmallLink(binned, x, 12);
      NoSmallLink(binned, x, 16);
      NoSmallLink(binned, x, 20);
      NoSmallLink(binned, x, 24);
      NoSmallLink(binned, x, 28);
    }
    forall i | 0 <= i < NTREEBINS ensures Rd(m', TreeBin(i)) == Rd(m, TreeBin(i)) {
      assert !SmallLink(binned, TreeBin(i));
    }
  }

  lemma LinkInside(binned: Sizes, a: int)
    requires Blocks(binned) && HEAP_BASE <= a
    ensures SmallLink(binned, a) ==> Interior(binned, a)
  {
    if SmallLink(binned, a) {
      var x :| x in binned && binned[x] < 256 && (a == x + 8 || a == x + 12);
      assert x in binned && x + 8 <= a < x + binned[x];
    }
  }

  lemma NoSmallLink(binned: Sizes, x: int, d: int)
    requires Blocks(binned) && x in binned && 256 <= binned[x] && 4 <= d < 32
    ensures !SmallLink(binned, x + d)
  {
  }

  // Where insert_small_chunk links: behind the header, before its old first chunk if any.
  function FirstOf(m: Mem, smallmap: BinMap, i: nat): int
    requires i < 32
  {
    if smallmap[i] then Fd(m, SmallBin(i)) else SmallBin(i)
  }

  lemma FirstKnown(m: Mem, smallmap: BinMap, small: seq<seq<int>>, binned: Sizes, i: nat)
    requires SmallOK(m, smallmap, small, binned) && i < 32
    ensures var f := FirstOf(m, smallmap, i);
            if smallmap[i] then small[i] != [] && f == small[i][0] else small[i] == [] && f == SmallBin(i)
  {
    if smallmap[i] {
      var r := [SmallBin(i)] + small[i];
      assert Linked(m, r, 0);
      assert Next(r, 0) == r[1] == small[i][0];
    }
  }

  /** Links between p and members of bin i: only words of small chunks of that size and headers. */
  lemma LinkChange(m: Mem, binned: Sizes, b: int, p: int, f: int)
    requires Blocks(binned)
    requires p in binned && binned[p] < 256
    requires exists i :: 0 <= i < 32 && b == SmallBin(i)
    requires f == b || (f in binned && binned[f] < 256)
    ensures SmallChange(m, LinkBetween(m, b, p, f), binned)
  {
    var m' := LinkBetween(m, b, p, f);
    forall a ensures SmallLink(binned, a) || Rd(m', a) == Rd(m, a) {
    }
  }

  lemma BlocksWithout(binned: Sizes, p: int, s: int)
    requires Blocks(binned[p := s]) && p !in binned
    ensures Blocks(binned)
  {
    var b := binned[p := s];
    forall x | x in binned
      ensures HEAP_BASE <= x && x % 8 == 0 && 16 <= binned[x] < TWO32 && binned[x] % 8 == 0
    {
      assert x in b && b[x] == binned[x];
    }
    forall x, y | x in binned && y in binned && x < y ensures x + binned[x] <= y {
      assert x in b && y in b && b[x] == binned[x];
    }
  }

  lemma InsertSmallOK(m: Mem, smallmap: BinMap, small: seq<seq<int>>, binned: Sizes, p: int, s: int)
    requires SmallOK(m, smallmap, small, binned) && Blocks(binned[p := s])
    requires p !in binned && 0 <= s < 256
    ensures var i := s / 8;
            && |small| == NSMALLBINS && 0 <= i < 32
            && var m' := LinkBetween(m, SmallBin(i), p, FirstOf(m, smallmap, i));
            && SmallOK(m', Mark(smallmap, i), small[i := [p] + small[i]], binned[p := s])
            && SmallChange(m, m', binned[p := s])
  {
    hide *;
    var i := s / 8;
    SmallParts(m, smallmap, small, binned);
    NewBlock(binned, p, s);
    BlocksWithout(binned, p, s);
    MarkMarks(smallmap, i);
    FirstKnown(m, smallmap, small, binned, i);
    SmallMembers(small, binned, i);
    var b, f := SmallBin(i), FirstOf(m, smallmap, i);
    LinkChange(m, binned[p := s], b, p, f);
    InsertRing(m, smallmap, small, binned, i, p);
    forall j | 0 <= j < 32 && j != i && small[j] != []
      ensures Ring(LinkBetween(m, b, p, f), [SmallBin(j)] + small[j])
    {
      OtherRing(m, smallmap, small, binned, i, j, b, p, f);
    }
    InsertFiled(small, binned, p, s);
    MakeSmallOK(LinkBetween(m, b, p, f), Mark(smallmap, i), small[i := [p] + small[i]], binned[p := s]);
  }

  lemma SmallParts(m: Mem, smallmap: BinMap, small: seq<seq<int>>, binned: Sizes)
    requires SmallOK(m, smallmap, small, binned)
    ensures |small| == NSMALLBINS == 32 && Filed(small, binned)
    ensures forall i | 0 <= i < 32 :: smallmap[i] <==> small[i] != []
  {
  }

  lemma MakeSmallOK(m: Mem, smallmap: BinMap, small: seq<seq<int>>, binned: Sizes)
    requires |small| == NSMALLBINS && Filed(small, binned)
    requires forall i | 0 <= i < 32 :: smallmap[i] <==> small[i] != []
    requires forall i | 0 <= i < 32 && small[i] != [] :: Ring(m, [SmallBin(i)] + small[i])
    ensures SmallOK(m, smallmap, small, binned)
  {
    hide Ring, Filed;
  }

  lemma NewBlock(binned: Sizes, p: int, s: int)
    requires Blocks(binned[p := s]) && 0 <= s < 256
    ensures HEAP_BASE <= p && p % 8 == 0 && s % 8 == 0 && 0 <= s / 8 < 32
  {
    assert p in binned[p := s];
  }

  lemma SmallMembers(small: seq<seq<int>>, binned: Sizes, i: nat)
    requires |small| == NSMALLBINS && i < NSMALLBINS && Filed(small, binned)
    ensures forall x | x in small[i] :: x in binned && binned[x] == 8 * i && binned[x] < 256
  {
  }

  lemma InsertFiled(small: seq<seq<int>>, binned: Sizes, p: int, s: int)
    requires |small| == NSMALLBINS && Filed(small, binned) && p !in binned && 0 <= s < 256 && s % 8 == 0
    ensures 0 <= s / 8 < 32 && Filed(small[s / 8 := [p] + small[s / 8]], binned[p := s])
  {
    var i := s / 8;
    assert s == 8 * i;
    var small', binned' := small[i := [p] + small[i]], binned[p := s];
    forall j, x | 0 <= j < 32 && x in small'[j] ensures x in binned' && binned'[x] == 8 * j {
      if x != p { assert x in small[j]; }
    }
    forall x | x in binned' && 0 <= binned'[x] < 256 ensures x in small'[binned'[x] / 8] {
      if x != p { assert x in small[binned[x] / 8]; }
    }
  }

  lemma InsertRing(m: Mem, smallmap: BinMap, small: seq<seq<int>>, binned: Sizes, i: nat, p: int)
    requires SmallOK(m, smallmap, small, binned) && i < 32
    requires p !in binned && HEAP_BASE <= p && p % 8 == 0
    ensures Ring(LinkBetween(m, SmallBin(i), p, FirstOf(m, smallmap, i)), [SmallBin(i)] + ([p] + small[i]))
  {
    var b := SmallBin(i);
    FirstKnown(m, smallmap, small, binned, i);
    assert p !in small[i];
    assert b % 8 == 0 && b < HEAP_BASE <= p;
    if smallmap[i] {
      var r := [b] + small[i];
      LinkRing(m, r, p);
      assert [r[0], p] + r[1..] == [b] + ([p] + small[i]);
    } else {
      LinkFirst(m, b, p);
      assert [b] + ([p] + small[i]) == [b, p];
    }
  }

  lemma OtherRing(m: Mem, smallmap: BinMap, small: seq<seq<int>>, binned: Sizes, i: int, j: int, b: int, p: int, f: int)
    requires SmallOK(m, smallmap, small, binned) && 0 <= i < 32 && 0 <= j < 32 && i != j && small[j] != []
    requires b == SmallBin(i) && p !in binned && HEAP_BASE <= p && p % 8 == 0
    requires f == b || f in small[i]
    requires Blocks(binned)
    ensures Ring(LinkBetween(m, b, p, f), [SmallBin(j)] + small[j])
  {
    var r := [SmallBin(j)] + small[j];
    var m' := LinkBetween(m, b, p, f);
    forall x | x in r ensures Fd(m', x) == Fd(m, x) && Bk(m', x) == Bk(m, x) {
      assert x == SmallBin(j) || (x in small[j] && x in binned && binned[x] == 8 * j);
      assert f == b || (f in binned && binned[f] == 8 * i);
      LinkBetweenFields(m, b, p, f, x);
    }
    RingFrame(m, m', r);
  }

  /** A small bin seen as the chain of a tree node at its header. */
  function Chain(small: seq<seq<int>>, i: nat): Tree
    requires i < |small|
  {
    Node(SmallBin(i), 0, small[i], Leaf, Leaf)
  }

  function UnlinkSmallMem(m: Mem, p: int): Mem {
    if Fd(m, p) == Bk(m, p) then m else Join(m, Fd(m, p), Bk(m, p))
  }

  lemma NoRepeatsTail(b: int, r: seq<int>)
    requires Distinct([b] + r)
    ensures Distinct(r) && b !in r
  {
    assert ([b] + r)[0] == b;
    assert forall k | 0 <= k < |r| :: r[k] == ([b] + r)[k + 1];
  }

  /** The two neighbours coincide exactly when p is alone in its bin. */
  lemma SmallNeighbours(m: Mem, smallmap: BinMap, small: seq<seq<int>>, binned: Sizes, p: int, i: nat)
    requires SmallOK(m, smallmap, small, binned) && i < 32 && p in small[i]
    ensures Fd(m, p) == Bk(m, p) <==> small[i] == [p]
    ensures Fd(m, p) == SmallBin(i) || Fd(m, p) in small[i]
    ensures Bk(m, p) == SmallBin(i) || Bk(m, p) in small[i]
    ensures Distinct(small[i])
  {
    var t := Chain(small, i);
    var r := [t.addr] + t.ring;
    NoRepeatsTail(t.addr, t.ring);
    var k := RingIndex(m, t, p);
    RingMembers(t, k + 1);
    var n := |r|;
    if n > 2 {
      var j0, j1 := if k + 2 < n then k + 2 else 0, k;
      assert Fd(m, p) == r[j0] && Bk(m, p) == r[j1];
      assert r[j0] != r[j1];
    } else {
      assert small[i] == [p];
    }
  }

  lemma UnlinkSmallOK(m: Mem, smallmap: BinMap, small: seq<seq<int>>, binned: Sizes, p: int)
    requires SmallOK(m, smallmap, small, binned) && Blocks(binned)
    requires p in binned && binned[p] < 256
    ensures var i := binned[p] / 8;
            && |small| == NSMALLBINS && 0 <= i < 32 && p in small[i]
            && var alone := Fd(m, p) == Bk(m, p);
            && SmallOK(UnlinkSmallMem(m, p), if alone then Clear(smallmap, i) else smallmap,
                       small[i := Without(small[i], p)], binned - {p})
            && SmallChange(m, UnlinkSmallMem(m, p), binned)
  {
    var i := binned[p] / 8;
    assert p in small[i];
    var f, b := Fd(m, p), Bk(m, p);
    var small', binned' := small[i := Without(small[i], p)], binned - {p};
    var smallmap' := if f == b then Clear(smallmap, i) else smallmap;
    var m' := UnlinkSmallMem(m, p);
    SmallNeighbours(m, smallmap, small, binned, p, i);
    MarkMarks(smallmap, i);
    WithoutElements(small[i], p);
    UnlinkedRing(m, smallmap, small, binned, p, i);
    UnlinkChange(m, smallmap, small, binned, p, i);
    forall j | 0 <= j < 32 && j != i && small[j] != [] ensures Ring(m', [SmallBin(j)] + small[j]) {
      if f != b { OtherRingJoin(m, smallmap, small, binned, i, j, f, b); }
    }
    UnlinkFiled(small, binned, p);
    hide Ring, Join, UnlinkSmallMem, Without, Blocks, SmallChange, Filed;
  }

  lemma UnlinkFiled(small: seq<seq<int>>, binned: Sizes, p: int)
    requires |small| == NSMALLBINS && Filed(small, binned) && p in binned && 0 <= binned[p] < 256
    requires Distinct(small[binned[p] / 8])
    ensures Filed(small[binned[p] / 8 := Without(small[binned[p] / 8], p)], binned - {p})
  {
    var i := binned[p] / 8;
    var small', binned' := small[i := Without(small[i], p)], binned - {p};
    WithoutElements(small[i], p);
    hide Without;
    assert p in small[i];
    forall j, x | 0 <= j < 32 && x in small'[j] ensures x in binned' && binned'[x] == 8 * j {
      assert x in small[j];
    }
    forall x | x in binned' && 0 <= binned'[x] < 256 ensures x in small'[binned'[x] / 8] {
      assert x in small[binned[x] / 8];
    }
  }

  lemma UnlinkedRing(m: Mem, smallmap: BinMap, small: seq<seq<int>>, binned: Sizes, p: int, i: nat)
    requires SmallOK(m, smallmap, small, binned) && i < 32 && p in small[i]
    ensures Distinct(small[i])
    ensures small[i] != [p] ==>
              Without(small[i], p) != [] &&
              Ring(UnlinkSmallMem(m, p), [SmallBin(i)] + Without(small[i], p))
    ensures small[i] == [p] ==> Without(small[i], p) == []
  {
    var t := Chain(small, i);
    SmallNeighbours(m, smallmap, small, binned, p, i);
    if small[i] == [p] {
      assert Without([p], p) == [];
    } else {
      UnchainRing(m, t, p);
      assert small[i][0] != p || small[i][1] != p;
      WithoutElements(small[i], p);
      assert small[i][0] in small[i] && small[i][1] in small[i];
      hide Ring;
    }
  }

  lemma UnlinkChange(m: Mem, smallmap: BinMap, small: seq<seq<int>>, binned: Sizes, p: int, i: nat)
    requires SmallOK(m, smallmap, small, binned) && Blocks(binned) && i < 32 && p in small[i]
    ensures SmallChange(m, UnlinkSmallMem(m, p), binned)
  {
    SmallNeighbours(m, smallmap, small, binned, p, i);
    var f, b := Fd(m, p), Bk(m, p);
    var m' := UnlinkSmallMem(m, p);
    assert f == SmallBin(i) || (f in binned && binned[f] < 256);
    assert b == SmallBin(i) || (b in binned && binned[b] < 256);
    hide Ring, SmallOK;
    forall a ensures SmallLink(binned, a) || Rd(m', a) == Rd(m, a) {
    }
  }

  lemma OtherRingJoin(m: Mem, smallmap: BinMap, small: seq<seq<int>>, binned: Sizes, i: int, j: int, f: int, b: int)
    requires SmallOK(m, smallmap, small, binned) && 0 <= i < 32 && 0 <= j < 32 && i != j && small[j] != []
    requires f == SmallBin(i) || f in small[i]
    requires b == SmallBin(i) || b in small[i]
    requires Blocks(binned)
    ensures Ring(Join(m, f, b), [SmallBin(j)] + small[j])
  {
    var r := [SmallBin(j)] + small[j];
    var m' := Join(m, f, b);
    forall x | x in r ensures Fd(m', x) == Fd(m, x) && Bk(m', x) == Bk(m, x) {
      assert x == SmallBin(j) || (x in small[j] && x in binned && binned[x] == 8 * j);
      assert f == SmallBin(i) || (f in binned && binned[f] == 8 * i);
      assert b == SmallBin(i) || (b in binned && binned[b] == 8 * i);
      JoinFields(m, f, b, x);
    }
    RingFrame(m, m', r);
  }

  // -------------------------------------------------------------------- treebins

  ghost predicate LargeLink(binned: Sizes, a: int) {
    || TREEBINS <= a < TREEBINS + 128
    || exists x :: x in binned && 256 <= binned[x] && x + 8 <= a < x + 32
  }

  ghost predicate LargeChange(m: Mem, m': Mem, binned: Sizes) {
    forall a :: LargeLink(binned, a) || Rd(m', a) == Rd(m, a)
  }

  lemma LargeChangeFrame(m: Mem, m': Mem, binned: Sizes)
    requires Blocks(binned) && LargeChange(m, m', binned)
    ensures BinsFrame(m, m', binned)
    ensures forall i | 0 <= i < NSMALLBINS ::
              Fd(m', SmallBin(i)) == Fd(m, SmallBin(i)) && Bk(m', SmallBin(i)) == Bk(m, SmallBin(i))
    ensures forall x | x in binned && binned[x] < 256 :: Fd(m', x) == Fd(m, x) && Bk(m', x) == Bk(m, x)
  {
    forall a | HEAP_BASE <= a && !Interior(binned, a) ensures Rd(m', a) == Rd(m, a) {
      LargeInside(binned, a);
    }
    forall x | x in binned && binned[x] < 256 ensures Fd(m', x) == Fd(m, x) && Bk(m', x) == Bk(m, x) {
      assert !LargeLink(binned, x + 8) && !LargeLink(binned, x + 12);
    }
    forall i | 0 <= i < NSMALLBINS
      ensures Fd(m', SmallBin(i)) == Fd(m, SmallBin(i)) && Bk(m', SmallBin(i)) == Bk(m, SmallBin(i))
    {
      assert !LargeLink(binned, SmallBin(i) + 8) && !LargeLink(binned, SmallBin(i) + 12);
    }
  }

  lemma LargeInside(binned: Sizes, a: int)
    requires Blocks(binned) && HEAP_BASE <= a
    ensures LargeLink(binned, a) ==> Interior(binned, a)
  {
    if LargeLink(binned, a) {
      var x :| x in binned && 256 <= binned[x] && x + 8 <= a < x + 32;
      assert x in binned && x + 8 <= a < x + binned[x];
    }
  }

  /** The last fields insert_large_chunk sets before it looks at the tree. */
  function FreshMem(m: Mem, p: int, i: int): Mem {
    m[p + 28 := i][p + 16 := 0][p + 20 := 0]
  }

  function SpotFor(t: Tree, s: int, i: nat): Spot
    requires i < NTREEBINS
  {
    if t.Leaf? then Slot(TreeBin(i), TreeBin(i)) else FindSpot(t, s, BinLo(i), BinWidth(i))
  }

  function InsertLargeMem(m: Mem, t: Tree, p: int, s: int, i: nat): Mem
    requires i < NTREEBINS
  {
    Place(FreshMem(m, p, i), SpotFor(t, s, i), p)
  }

  lemma FreshFields(m: Mem, p: int, i: int)
    ensures var m' := FreshMem(m, p, i);
            && Head(m', p) == Head(m, p) && Index(m', p) == i && Child0(m', p) == 0 && Child1(m', p) == 0
    ensures forall y | Apart(p, y) :: SameNode(m, FreshMem(m, p, i), y)
    ensures forall a | a < p :: Rd(FreshMem(m, p, i), a) == Rd(m, a)
  {
  }

  lemma {:induction false} SpotHeld(m: Mem, t: Tree, parent: int, idx: int, s: int, lo: int, w: int) returns (z: int)
    requires t.Node? && Rep(m, t, parent, idx)
    ensures match FindSpot(t, s, lo, w)
            case Behind(n) => Holds(t, n, z) && Holds(t, Fd(m, n), z)
            case Slot(c, q) => Holds(t, q, z) && (c == q + 16 || c == q + 20)
  {
    if s == t.size {
      FdChained(m, t, parent, idx);
      z := t.size;
    } else if s < lo + w / 2 {
      if t.left.Leaf? { z := t.size; } else { z := SpotHeld(m, t.left, t.addr, idx, s, lo, w / 2); }
    } else {
      if t.right.Leaf? { z := t.size; } else { z := SpotHeld(m, t.right, t.addr, idx, s, lo + w / 2, w / 2); }
    }
  }

  lemma SpotWords(m: Mem, spot: Spot, x: int, a: int)
    requires a < x + 8 || x + 32 <= a
    requires match spot case Behind(t) => a != t + 8 && a != Fd(m, t) + 12 case Slot(c, p) => a != c
    ensures Rd(Place(m, spot, x), a) == Rd(m, a)
  {
  }

  /** Address a is no word that the tree's nodes own. */
  ghost predicate Beside(t: Tree, a: int) {
    forall x, z | Holds(t, x, z) :: a < x + 8 || x + 32 <= a
  }

  lemma BesideNode(t: Tree, y: int)
    requires AllApart(t, y)
    ensures Beside(t, y + 4) && Beside(t, y + 8) && Beside(t, y + 12) && Beside(t, y + 16)
    ensures Beside(t, y + 20) && Beside(t, y + 24) && Beside(t, y + 28)
  {
  }

  /** Beside the tree's nodes, p and the bin's own word, insertion writes nothing. */
  lemma InsertLargeWords(m: Mem, t: Tree, p: int, s: int, i: nat, a: int)
    requires i < NTREEBINS && Rep(m, t, TreeBin(i), i)
    requires Beside(t, a)
    requires a < p + 8 || p + 32 <= a
    requires t.Leaf? ==> a != TreeBin(i)
    requires AllApart(t, p)
    ensures Rd(InsertLargeMem(m, t, p, s, i), a) == Rd(m, a)
  {
    var m1 := FreshMem(m, p, i);
    assert Rd(m1, a) == Rd(m, a);
    FreshRep(m, t, p, i);
    hide FreshMem, Place;
    if t.Node? {
      var z := SpotHeld(m1, t, TreeBin(i), i, s, BinLo(i), BinWidth(i));
    }
    SpotWords(m1, SpotFor(t, s, i), p, a);
  }

  lemma FreshRep(m: Mem, t: Tree, p: int, i: nat)
    requires i < NTREEBINS && Rep(m, t, TreeBin(i), i) && AllApart(t, p)
    ensures Rep(FreshMem(m, p, i), t, TreeBin(i), i)
  {
    FreshFields(m, p, i);
    hide FreshMem;
    assert forall x, z | Holds(t, x, z) :: Apart(p, x);
    RepFrame(m, FreshMem(m, p, i), t, TreeBin(i), i);
  }

  lemma FirstNode(m: Mem, p: int, s: int, h: int, i: int)
    requires p != 0 && p % 8 == 0 && h + 40 <= p
    requires SizeOf(Head(m, p)) == s && Index(m, p) == i && Child0(m, p) == 0 && Child1(m, p) == 0
    ensures var m' := Place(m, Slot(h, h), p);
            Rd(m', h) == p && Rep(m', Node(p, s, [], Leaf, Leaf), h, i)
  {
    var m' := Place(m, Slot(h, h), p);
    assert Fd(m', p) == p && Bk(m', p) == p && Parent(m', p) == h;
    assert Ring(m', [p]);
    assert [p] + [] == [p];
    var n := Node(p, s, [], Leaf, Leaf);
    assert TreeNode(m', n, h, i);
    assert Rep(m', Leaf, p, i);
  }

  /** The bin p goes to, after the insertion. */
  lemma InsertTreeOK(m: Mem, t: Tree, p: int, s: int, i: nat, marked: bool)
    requires i < NTREEBINS && TreeBinOK(m, marked, t, i)
    requires Spread(t) && AllApart(t, p) && AllApart(t, TreeBin(i) - 16)
    requires HEAP_BASE <= p && p % 8 == 0 && SizeOf(Head(m, p)) == s && s % 8 == 0
    requires BinLo(i) <= s < BinLo(i) + BinWidth(i)
    ensures TreeBinOK(InsertLargeMem(m, t, p, s, i), true, Insert(t, p, s, BinLo(i), BinWidth(i)), i)
  {
    var lo, w := BinLo(i), BinWidth(i);
    var m1 := FreshMem(m, p, i);
    var m' := InsertLargeMem(m, t, p, s, i);
    FreshFields(m, p, i);
    FreshRep(m, t, p, i);
    BinShape(i);
    assert Holds(t, p, s) ==> Apart(p, p);
    hide FreshMem, BinLo, BinWidth;
    InsertTrie(t, p, s, lo, w);
    if t.Leaf? {
      hide Place;
      FirstNode(m1, p, s, TreeBin(i), i);
    } else {
      PlaceRep(m1, t, TreeBin(i), i, p, s, lo, w);
      InsertRoot(t, p, s, lo, w);
      assert forall x, z | Holds(t, x, z) :: TreeBin(i) < x + 8 || x + 32 <= TreeBin(i);
      hide Rep, Place, Holds;
      InsertLargeWords(m, t, p, s, i, TreeBin(i));
    }
  }

  /** Chunks held by the trees do not overlap a block outside the bins. */
  lemma TreeApartFrom(trees: seq<Tree>, binned: Sizes, p: int, s: int, i: int)
    requires |trees| == NTREEBINS && 0 <= i < NTREEBINS && TreeContents(trees[i], i, binned)
    requires Blocks(binned[p := s]) && p !in binned && 256 <= s
    ensures AllApart(trees[i], p)
  {
    forall x, z | Holds(trees[i], x, z) ensures Apart(x, p) {
      var b := binned[p := s];
      assert x in b && b[x] == z && p in b && b[p] == s;
    }
  }

  /** Chunks of different bins do not overlap. */
  lemma TreesApart(trees: seq<Tree>, binned: Sizes, i: int, j: int, y: int, z: int)
    requires |trees| == NTREEBINS && 0 <= i < NTREEBINS && 0 <= j < NTREEBINS && i != j
    requires TreeContents(trees[i], i, binned) && TreeContents(trees[j], j, binned)
    requires Blocks(binned) && Holds(trees[j], y, z)
    ensures AllApart(trees[i], y) && HEAP_BASE <= y
  {
    hide TreeIndex;
    assert y in binned && binned[y] == z && TreeIndex(z) == j;
    forall u, q | Holds(trees[i], u, q) ensures Apart(u, y) {
      assert u in binned && binned[u] == q && TreeIndex(q) == i;
    }
  }

  lemma InsertLargeChange(m: Mem, t: Tree, binned: Sizes, p: int, s: int, i: nat)
    requires i < NTREEBINS && Rep(m, t, TreeBin(i), i) && TreeContents(t, i, binned)
    requires p !in binned && 256 <= s && AllApart(t, p)
    ensures LargeChange(m, InsertLargeMem(m, t, p, s, i), binned[p := s])
  {
    hide Rep;
    var b := binned[p := s];
    assert p in b && b[p] == s;
    forall a ensures LargeLink(b, a) || Rd(InsertLargeMem(m, t, p, s, i), a) == Rd(m, a) {
      if !LargeLink(b, a) {
        forall x, z | Holds(t, x, z) ensures a < x + 8 || x + 32 <= a {
          assert x in b && b[x] == z && 256 <= z;
        }
        InsertLargeWords(m, t, p, s, i, a);
      }
    }
  }

  lemma InsertOtherTree(m: Mem, trees: seq<Tree>, binned: Sizes, p: int, s: int, i: nat, j: int, marked: bool)
    requires |trees| == NTREEBINS && i < NTREEBINS && 0 <= j < NTREEBINS && i != j
    requires Rep(m, trees[i], TreeBin(i), i) && TreeContents(trees[i], i, binned) && AllApart(trees[i], p)
    requires TreeBinOK(m, marked, trees[j], j) && TreeContents(trees[j], j, binned)
    requires Blocks(binned[p := s]) && p !in binned && 256 <= s && HEAP_BASE <= p
    ensures TreeBinOK(InsertLargeMem(m, trees[i], p, s, i), marked, trees[j], j)
  {
    var t := trees[i];
    var m' := InsertLargeMem(m, t, p, s, i);
    BlocksWithout(binned, p, s);
    TreeApartFrom(trees, binned, p, s, j);
    forall y, z | Holds(trees[j], y, z) ensures SameNode(m, m', y) {
      TreesApart(trees, binned, i, j, y, z);
      hide TreeIndex, InsertLargeMem, Rep, TreeBinOK;
      OtherNode(m, t, p, s, i, y);
    }
    forall x, z | Holds(t, x, z) ensures TreeBin(j) < x + 8 { assert x in binned; }
    hide Rep, InsertLargeMem, Trie;
    InsertLargeWords(m, t, p, s, i, TreeBin(j));
    RepFrame(m, m', trees[j], TreeBin(j), j);
  }

  lemma OtherNode(m: Mem, t: Tree, p: int, s: int, i: nat, y: int)
    requires i < NTREEBINS && Rep(m, t, TreeBin(i), i) && AllApart(t, p)
    requires Apart(p, y) && AllApart(t, y) && HEAP_BASE <= y
    ensures SameNode(m, InsertLargeMem(m, t, p, s, i), y)
  {
    hide Rep, Beside, InsertLargeMem;
    BesideNode(t, y);
    InsertLargeWords(m, t, p, s, i, y + 4);
    InsertLargeWords(m, t, p, s, i, y + 8);
    InsertLargeWords(m, t, p, s, i, y + 12);
    InsertLargeWords(m, t, p, s, i, y + 16);
    InsertLargeWords(m, t, p, s, i, y + 20);
    InsertLargeWords(m, t, p, s, i, y + 24);
    InsertLargeWords(m, t, p, s, i, y + 28);
  }

  lemma InsertLargeOK(m: Mem, treemap: BinMap, trees: seq<Tree>, binned: Sizes, p: int, s: int)
    requires TreesOK(m, treemap, trees, binned) && Blocks(binned[p := s])
    requires p !in binned && 256 <= s && SizeOf(Head(m, p)) == s
    ensures var i := TreeIndex(s);
            && |trees| == NTREEBINS && 0 <= i < NTREEBINS
            && var m' := InsertLargeMem(m, trees[i], p, s, i);
            && TreesOK(m', Mark(treemap, i), trees[i := Insert(trees[i], p, s, BinLo(i), BinWidth(i))], binned[p := s])
            && LargeChange(m, m', binned[p := s])
  {
    var i := TreeIndex(s);
    assert binned[p := s][p] == s;
    BinRange(s);
    BlocksWithout(binned, p, s);
    assert TreeBinOK(m, treemap[i], trees[i], i) && TreeContents(trees[i], i, binned);
    hide TreeIndex, BinLo, BinWidth;
    var t := trees[i];
    var m' := InsertLargeMem(m, t, p, s, i);
    var t' := Insert(t, p, s, BinLo(i), BinWidth(i));
    var treemap', trees', binned' := Mark(treemap, i), trees[i := t'], binned[p := s];
    MarkMarks(treemap, i);
    TreeSpread(m, treemap, trees, binned, i);
    TreeApartFrom(trees, binned, p, s, i);
    InsertTreeOK(m, t, p, s, i, treemap[i]);
    InsertLargeChange(m, t, binned, p, s, i);
    forall j | 0 <= j < NTREEBINS ensures TreeBinOK(m', treemap'[j], trees'[j], j) {
      if j != i {
        assert TreeBinOK(m, treemap[j], trees[j], j) && TreeContents(trees[j], j, binned);
        InsertOtherTree(m, trees, binned, p, s, i, j, treemap[j]);
      }
    }
    InsertContents(trees, binned, p, s, i);
    hide TreeBinOK, InsertLargeMem, TreeContents, InItsTree, LargeChange;
  }

  lemma InsertContents(trees: seq<Tree>, binned: Sizes, p: int, s: int, i: nat)
    requires |trees| == NTREEBINS && i < NTREEBINS && 256 <= s && TreeIndex(s) == i && p !in binned
    requires forall j | 0 <= j < NTREEBINS :: TreeContents(trees[j], j, binned)
    requires forall x | x in binned && 256 <= binned[x] :: InItsTree(trees, x, binned[x])
    ensures var trees', binned' := trees[i := Insert(trees[i], p, s, BinLo(i), BinWidth(i))], binned[p := s];
            && (forall j | 0 <= j < NTREEBINS :: TreeContents(trees'[j], j, binned'))
            && (forall x | x in binned' && 256 <= binned'[x] :: InItsTree(trees', x, binned'[x]))
  {
    var t := trees[i];
    var lo, w := BinLo(i), BinWidth(i);
    var trees', binned' := trees[i := Insert(t, p, s, lo, w)], binned[p := s];
    hide TreeIndex, BinLo, BinWidth, Insert;
    forall j | 0 <= j < NTREEBINS ensures TreeContents(trees'[j], j, binned') {
      assert TreeContents(trees[j], j, binned);
      forall x, z | Holds(trees'[j], x, z)
        ensures x in binned' && binned'[x] == z && 256 <= z && TreeIndex(z) == j
      {
        if j == i { InsertHolds(t, p, s, lo, w, x, z); }
      }
    }
    forall x | x in binned' && 256 <= binned'[x] ensures InItsTree(trees', x, binned'[x]) {
      var z := binned'[x];
      if x != p { assert InItsTree(trees, x, z); }
      if TreeIndex(z) == i { InsertHolds(t, p, s, lo, w, x, z); }
    }
  }

  // ------------------------------------------------------- both kinds of bins at once

  lemma TreesAfterSmallInsert(m: Mem, m': Mem, treemap: BinMap, trees: seq<Tree>, binned: Sizes, p: int, s: int)
    requires TreesOK(m, treemap, trees, binned) && p !in binned && s < 256
    requires forall i | 0 <= i < NTREEBINS :: Rd(m', TreeBin(i)) == Rd(m, TreeBin(i))
    requires var b := binned[p := s]; forall x | x in b && 256 <= b[x] :: SameNode(m, m', x)
    ensures TreesOK(m', treemap, trees, binned[p := s])
  {
    var b := binned[p := s];
    assert forall x | x in binned && 256 <= binned[x] :: x in b && b[x] == binned[x];
    TreesFrame(m, m', treemap, trees, binned);
    hide TreeBinOK, InItsTree;
    forall i | 0 <= i < NTREEBINS ensures TreeContents(trees[i], i, b) {
      assert TreeContents(trees[i], i, binned);
    }
  }

  lemma TreesAfterSmallUnlink(m: Mem, m': Mem, treemap: BinMap, trees: seq<Tree>, binned: Sizes, p: int)
    requires TreesOK(m, treemap, trees, binned) && p in binned && binned[p] < 256
    requires forall i | 0 <= i < NTREEBINS :: Rd(m', TreeBin(i)) == Rd(m, TreeBin(i))
    requires forall x | x in binned && 256 <= binned[x] :: SameNode(m, m', x)
    ensures TreesOK(m', treemap, trees, binned - {p})
  {
    TreesFrame(m, m', treemap, trees, binned);
    hide TreeBinOK, InItsTree;
    forall i | 0 <= i < NTREEBINS ensures TreeContents(trees[i], i, binned - {p}) {
      assert TreeContents(trees[i], i, binned);
    }
  }

  lemma SmallAfterLargeInsert(m: Mem, m': Mem, smallmap: BinMap, small: seq<seq<int>>, binned: Sizes, p: int, s: int)
    requires SmallOK(m, smallmap, small, binned) && p !in binned && 256 <= s
    requires forall i | 0 <= i < NSMALLBINS ::
              Fd(m', SmallBin(i)) == Fd(m, SmallBin(i)) && Bk(m', SmallBin(i)) == Bk(m, SmallBin(i))
    requires var b := binned[p := s]; forall x | x in b && b[x] < 256 :: Fd(m', x) == Fd(m, x) && Bk(m', x) == Bk(m, x)
    ensures SmallOK(m', smallmap, small, binned[p := s])
  {
    var b := binned[p := s];
    forall x | x in binned && binned[x] < 256 ensures Fd(m', x) == Fd(m, x) && Bk(m', x) == Bk(m, x) {
      assert x in b && b[x] == binned[x];
    }
    SmallFrame(m, m', smallmap, small, binned);
    hide Ring;
  }

  lemma SmallAfterLargeUnlink(m: Mem, m': Mem, smallmap: BinMap, small: seq<seq<int>>, binned: Sizes, p: int)
    requires SmallOK(m, smallmap, small, binned) && p in binned && 256 <= binned[p]
    requires forall i | 0 <= i < NSMALLBINS ::
              Fd(m', SmallBin(i)) == Fd(m, SmallBin(i)) && Bk(m', SmallBin(i)) == Bk(m, SmallBin(i))
    requires forall x | x in binned && binned[x] < 256 :: Fd(m', x) == Fd(m, x) && Bk(m', x) == Bk(m, x)
    ensures SmallOK(m', smallmap, small, binned - {p})
  {
    SmallFrame(m, m', smallmap, small, binned);
    hide Ring;
    forall i, x | 0 <= i < NSMALLBINS && x in small[i] ensures x in binned - {p} {
      assert binned[x] == 8 * i;
    }
  }

  /** The bins part of the heap invariant. */
  ghost predicate BinsInv(m: Mem, smallmap: BinMap, small: seq<seq<int>>, treemap: BinMap, trees: seq<Tree>,
        binned: Sizes) {
    Blocks(binned) && SmallOK(m, smallmap, small, binned) && TreesOK(m, treemap, trees, binned)
  }

  lemma InsertSmallInv(m: Mem, smallmap: BinMap, small: seq<seq<int>>, treemap: BinMap, trees: seq<Tree>,
        binned: Sizes, p: int, s: int)
    requires BinsInv(m, smallmap, small, treemap, trees, binned)
    requires p !in binned && Blocks(binned[p := s]) && s < 256
    ensures var i := s / 8;
            && |small| == NSMALLBINS && 0 <= i < NSMALLBINS
            && var m' := LinkBetween(m, SmallBin(i), p, FirstOf(m, smallmap, i));
            && BinsInv(m', Mark(smallmap, i), small[i := [p] + small[i]], treemap, trees, binned[p := s])
            && BinsFrame(m, m', binned[p := s])
  {
    assert p in binned[p := s] && binned[p := s][p] == s;
    assert 16 <= s;
    hide SmallOK, TreesOK, SmallChange, Blocks, BinsFrame, LinkBetween;
    InsertSmallOK(m, smallmap, small, binned, p, s);
    var m' := LinkBetween(m, SmallBin(s / 8), p, FirstOf(m, smallmap, s / 8));
    SmallChangeFrame(m, m', binned[p := s]);
    TreesAfterSmallInsert(m, m', treemap, trees, binned, p, s);
  }

  lemma BlocksMinus(binned: Sizes, p: int)
    requires Blocks(binned)
    ensures Blocks(binned - {p})
  {
  }

  lemma UnlinkSmallInv(m: Mem, smallmap: BinMap, small: seq<seq<int>>, treemap: BinMap, trees: seq<Tree>,
        binned: Sizes, p: int)
    requires BinsInv(m, smallmap, small, treemap, trees, binned)
    requires p in binned && binned[p] < 256
    ensures var i := binned[p] / 8;
            && |small| == NSMALLBINS && 0 <= i < NSMALLBINS
            && var m' := UnlinkSmallMem(m, p);
            && BinsInv(m', if Fd(m, p) == Bk(m, p) then Clear(smallmap, i) else smallmap,
                       small[i := Without(small[i], p)], treemap, trees, binned - {p})
            && BinsFrame(m, m', binned)
  {
    hide SmallOK, TreesOK, SmallChange, Blocks, BinsFrame, UnlinkSmallMem;
    BlocksMinus(binned, p);
    UnlinkSmallOK(m, smallmap, small, binned, p);
    var m' := UnlinkSmallMem(m, p);
    SmallChangeFrame(m, m', binned);
    TreesAfterSmallUnlink(m, m', treemap, trees, binned, p);
  }

  lemma InsertLargeInv(m: Mem, smallmap: BinMap, small: seq<seq<int>>, treemap: BinMap, trees: seq<Tree>,
        binned: Sizes, p: int, s: int)
    requires BinsInv(m, smallmap, small, treemap, trees, binned)
    requires p !in binned && Blocks(binned[p := s]) && 256 <= s && SizeOf(Head(m, p)) == s
    ensures var i := TreeIndex(s);
            && |trees| == NTREEBINS && 0 <= i < NTREEBINS
            && var m' := InsertLargeMem(m, trees[i], p, s, i);
            && BinsInv(m', smallmap, small, Mark(treemap, i),
                       trees[i := Insert(trees[i], p, s, BinLo(i), BinWidth(i))], binned[p := s])
            && BinsFrame(m, m', binned[p := s])
  {
    hide SmallOK, TreesOK, LargeChange, Blocks, BinsFrame, InsertLargeMem, TreeIndex, Insert, BinLo, BinWidth;
    InsertLargeOK(m, treemap, trees, binned, p, s);
    var m' := InsertLargeMem(m, trees[TreeIndex(s)], p, s, TreeIndex(s));
    LargeChangeFrame(m, m', binned[p := s]);
    SmallAfterLargeInsert(m, m', smallmap, small, binned, p, s);
  }

  // ------------------------------------------------------- stores that miss the bins

  /** A word no bin reads: not a bin header and not in a binned chunk above its prev_foot. */
  ghost predicate OutsideBins(binned: Sizes, a: int) {
    HEAP_BASE <= a && forall x | x in binned :: !(x + 4 <= a < x + binned[x])
  }

  ghost predicate TagsOnly(m: Mem, m': Mem, binned: Sizes) {
    forall a :: Rd(m', a) == Rd(m, a) || OutsideBins(binned, a)
  }

  lemma TagsOnlyKeeps(m: Mem, m': Mem, smallmap: BinMap, small: seq<seq<int>>, treemap: BinMap, trees: seq<Tree>,
        binned: Sizes)
    requires BinsInv(m, smallmap, small, treemap, trees, binned) && TagsOnly(m, m', binned)
    ensures BinsInv(m', smallmap, small, treemap, trees, binned)
  {
    hide SmallOK, TreesOK;
    forall i | 0 <= i < NSMALLBINS ensures Fd(m', SmallBin(i)) == Fd(m, SmallBin(i)) &&
      Bk(m', SmallBin(i)) == Bk(m, SmallBin(i)) {
      assert !OutsideBins(binned, SmallBin(i) + 8) && !OutsideBins(binned, SmallBin(i) + 12);
    }
    forall i | 0 <= i < NTREEBINS ensures Rd(m', TreeBin(i)) == Rd(m, TreeBin(i)) {
      assert !OutsideBins(binned, TreeBin(i));
    }
    forall x | x in binned ensures Fd(m', x) == Fd(m, x) && Bk(m', x) == Bk(m, x) {
      assert !OutsideBins(binned, x + 8) && !OutsideBins(binned, x + 12);
    }
    forall x | x in binned && 256 <= binned[x] ensures SameNode(m, m', x) {
      assert !OutsideBins(binned, x + 4) && !OutsideBins(binned, x + 16) && !OutsideBins(binned, x + 20);
      assert !OutsideBins(binned, x + 24) && !OutsideBins(binned, x + 28);
    }
    SmallFrame(m, m', smallmap, small, binned);
    TreesFrame(m, m', treemap, trees, binned);
  }
}
