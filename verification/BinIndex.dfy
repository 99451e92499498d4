/** Which bin a size belongs to, and the bit maps over the bins. */
module BinIndex {
  import opened Arithmetic
  import opened Words
  import opened Tries

  function Pow2(n: nat): (p: int)
    ensures p >= 1
  {
    if n == 0 then 1 else 2 * Pow2(n - 1)
  }

  lemma {:induction false} Pow2Add(a: nat, b: nat)
    ensures Pow2(a + b) == Pow2(a) * Pow2(b)
  {
    if a > 0 { Pow2Add(a - 1, b); }
  }

  lemma {:induction false} Pow2Monotone(a: nat, b: nat)
    requires a < b
    ensures 2 * Pow2(a) <= Pow2(b)
  {
    if a + 1 < b { Pow2Monotone(a, b - 1); }
  }

  lemma {:induction false} Pow2Width(n: nat)
    requires n >= 3
    ensures Width(Pow2(n)) && Pow2(n) % 8 == 0
  {
    if n == 3 {
      assert Pow2(3) == 8;
    } else {
      Pow2Width(n - 1);
      assert Pow2(n) == 2 * Pow2(n - 1);
      hide Pow2;
      TwiceWidth(Pow2(n - 1));
    }
  }

  lemma TwiceWidth(w: int)
    requires Width(w) && w % 8 == 0
    ensures Width(2 * w) && 2 * w % 8 == 0
  {
    TwiceSixteen(w);
    assert 2 * w / 2 == w;
  }

  lemma TwiceSixteen(w: int)
    requires w % 8 == 0
    ensures 2 * w % 16 == 0 && 2 * w % 8 == 0
  {
    hide *;
    assert 2 * w == 16 * (w / 8);
  }

  /** 31 - clz(x): the index of the highest set bit. */
  function Log2(x: nat): (k: nat)
    requires x >= 1
  {
    if x == 1 then 0 else 1 + Log2(x / 2)
  }

  lemma {:induction false} Log2Bounds(x: nat)
    requires x >= 1
    ensures Pow2(Log2(x)) <= x < Pow2(Log2(x) + 1)
  {
    if x > 1 { Log2Bounds(x / 2); }
  }

  lemma Log2AtMost(x: nat, k: nat)
    requires 1 <= x < Pow2(k + 1)
    ensures Log2(x) <= k
  {
    Log2Bounds(x);
    if Log2(x) > k {
      if Log2(x) > k + 1 { Pow2Monotone(k + 1, Log2(x)); }
    }
  }

  // ------------------------------------------------------------------- treebins

  const NTREEBINS := 32
  const TREEBIN_SHIFT := 8

  /** (S >> k) & 1. */
  function BitAt(s: nat, k: nat): int {
    s / Pow2(k) % 2
  }

  /** compute_tree_index, in the form the build selects (the one using clz). */
  function TreeIndex(s: nat): int {
    var x := s / 256;
    if x == 0 then 0
    else if x > 0xFFFF then NTREEBINS - 1
    else
      var k := Log2(x);
      2 * k + BitAt(s, k + TREEBIN_SHIFT - 1)
  }

  /** minsize_for_tree_index. */
  function MinSize(i: nat): int {
    Pow2(i / 2 + TREEBIN_SHIFT) + (i % 2) * Pow2(i / 2 + TREEBIN_SHIFT - 1)
  }

  /** leftshift_for_tree_index. */
  function LeftShift(i: nat): nat
    requires i < NTREEBINS
  {
    if i == NTREEBINS - 1 then 0 else 31 - (i / 2 + TREEBIN_SHIFT - 2)
  }

  /** The range of sizes the root of treebin i is responsible for. The last bin takes every
      size from its minimum up, and its trie is keyed on all 32 bits. */
  function BinLo(i: nat): int {
    if i == NTREEBINS - 1 then 0 else MinSize(i)
  }

  function BinWidth(i: nat): int {
    if i == NTREEBINS - 1 then Pow2(32) else Pow2(i / 2 + TREEBIN_SHIFT - 1)
  }

  lemma DivTwoOrThree(s: int, p: int)
    requires p > 0 && 2 * p <= s < 4 * p
    ensures s / p % 2 == if s < 3 * p then 0 else 1
  {
    if s < 3 * p {
      DivModUnique(s, p, 2, s - 2 * p);
    } else {
      DivModUnique(s, p, 3, s - 3 * p);
    }
  }

  /** The three least sizes around the bins of one power of two. */
  lemma MinSizeAt(k: nat)
    ensures var p := Pow2(k + 7);
            MinSize(2 * k) == 2 * p && MinSize(2 * k + 1) == 3 * p && MinSize(2 * k + 2) == 4 * p
  {
    var p := Pow2(k + 7);
    assert Pow2(k + 8) == 2 * p;
    assert Pow2(k + 9) == 4 * p;
    assert (2 * k) / 2 == k && (2 * k + 1) / 2 == k && (2 * k + 2) / 2 == k + 1;
  }

  lemma Pow2Values()
    ensures Pow2(3) == 8 && Pow2(7) == 128 && Pow2(8) == 256 && Pow2(16) == 0x1_0000
    ensures Pow2(22) == 0x40_0000 && Pow2(23) == 0x80_0000 && Pow2(24) == 0x100_0000 && Pow2(32) == TWO32
  {
    assert Pow2(8) == 256;
    Pow2Add(8, 8);
    Pow2Add(16, 6);
    Pow2Add(16, 7);
    Pow2Add(16, 8);
    Pow2Add(16, 16);
    assert Pow2(6) == 64;
  }

  lemma TreeIndexOfPower(s: nat, k: nat)
    requires Pow2(k + 8) <= s < Pow2(k + 9)
    ensures var i := 2 * k + BitAt(s, k + 7);
            (i == 2 * k || i == 2 * k + 1) && MinSize(i) <= s < MinSize(i + 1)
  {
    var p := Pow2(k + 7);
    assert Pow2(k + 8) == 2 * p && Pow2(k + 9) == 4 * p;
    assert BitAt(s, k + 7) == if s < 3 * p then 0 else 1 by {
      DivTwoOrThree(s, p);
    }
    hide Pow2, MinSize, BitAt;
    MinSizeAt(k);
  }

  /** The bin of a size holds it: minsize(I) <= S, and S < minsize(I + 1) below the last bin. */
  lemma TreeIndexBounds(s: nat)
    requires 256 <= s < TWO32
    ensures var i := TreeIndex(s);
            && 0 <= i < NTREEBINS
            && MinSize(i) <= s && (i < NTREEBINS - 1 ==> s < MinSize(i + 1))
  {
    hide Pow2, MinSize, BitAt, Log2;
    var x := s / 256;
    Pow2Values();
    if x <= 0xFFFF {
      var k := Log2(x);
      Log2Bounds(x);
      Log2AtMost(x, 15);
      ScaleByBlock(s, k);
      TreeIndexOfPower(s, k);
    } else {
      MinSizeAt(15);
    }
  }

  lemma ScaleByBlock(s: nat, k: nat)
    requires Pow2(k) <= s / 256 < Pow2(k + 1)
    ensures Pow2(k + 8) <= s < Pow2(k + 9)
  {
    Pow2Add(k, 8);
    Pow2Add(k + 1, 8);
    Pow2Values();
    hide Pow2;
  }

  lemma MinSizeStep(h: nat)
    ensures MinSize(h) < MinSize(h + 1)
  {
    MinSizeAt(h / 2);
  }

  lemma {:induction false} MinSizeMonotone(i: nat, j: nat)
    requires i < j
    ensures MinSize(i) < MinSize(j)
  {
    MinSizeStep(j - 1);
    if i + 1 < j {
      MinSizeMonotone(i, j - 1);
    }
  }

  /** Bins are ordered by size. */
  lemma TreeIndexMonotone(s: nat, z: nat)
    requires 256 <= s < TWO32 && 256 <= z < TWO32
    requires TreeIndex(s) < TreeIndex(z)
    ensures s < z
  {
    TreeIndexBounds(s);
    TreeIndexBounds(z);
    var i, j := TreeIndex(s), TreeIndex(z);
    if i + 1 < j { MinSizeMonotone(i + 1, j); }
  }

  lemma TrieRoot(t: Tree, lo: int, w: int)
    requires t.Node? && Trie(t, lo, w)
    ensures w >= 8 && Trie(t.left, lo, w / 2) && Trie(t.right, lo + w / 2, w / 2)
  {
  }

  lemma HeightOfNode(t: Tree)
    requires t.Node?
    ensures t.left.Leaf? ==> Height(t.left) == 0
    ensures t.right.Leaf? ==> Height(t.right) == 0
    ensures Height(t) == 1 + if Height(t.left) >= Height(t.right) then Height(t.left) else Height(t.right)
  {
  }

  lemma OneLevel(h: nat, w: int)
    requires h > 0 && 8 * Pow2(h - 1) <= w / 2
    ensures 8 * Pow2(h) <= w
  {
    assert Pow2(h) == 2 * Pow2(h - 1);
    hide Pow2;
  }

  lemma OneIsEight(w: int)
    requires w >= 8
    ensures 8 * Pow2(0) <= w
  {
  }

  lemma {:induction false} HeightBound(t: Tree, lo: int, w: int)
    requires t.Node? && Trie(t, lo, w)
    ensures 8 * Pow2(Height(t) - 1) <= w
    decreases t
  {
    hide *;
    TrieRoot(t, lo, w);
    HeightOfNode(t);
    OneIsEight(w);
    if t.left.Leaf? && t.right.Leaf? {
      assert Height(t) == 1;
    } else if t.right.Leaf? || (t.left.Node? && Height(t.left) >= Height(t.right)) {
      HeightBound(t.left, lo, w / 2);
      HeightOfNode(t.left);
      OneLevel(Height(t.left), w);
    } else {
      HeightBound(t.right, lo + w / 2, w / 2);
      HeightOfNode(t.right);
      OneLevel(Height(t.right), w);
    }
  }

  /** A path in a tree bin has at most as many nodes as the sizes of the bin have bits above the lowest
      three, and one more. */
  lemma DepthBound(t: Tree, i: nat)
    requires i < NTREEBINS && Trie(t, BinLo(i), BinWidth(i))
    ensures Height(t) <= 30 - LeftShift(i)
  {
    if t.Node? {
      HeightBound(t, BinLo(i), BinWidth(i));
      assert BinWidth(i) == Pow2(32 - LeftShift(i));
      Pow2Add(3, Height(t) - 1);
      assert Pow2(3) == 8;
      if Height(t) > 30 - LeftShift(i) { Pow2Monotone(32 - LeftShift(i), Height(t) + 2); }
    }
  }

  lemma BinRange(s: nat)
    requires 256 <= s < TWO32
    ensures var i := TreeIndex(s);
            && 0 <= i < NTREEBINS
            && BinLo(i) <= s < BinLo(i) + BinWidth(i)
  {
    TreeIndexBounds(s);
    Pow2Values();
    var i := TreeIndex(s);
    hide TreeIndex;
    if i < NTREEBINS - 1 {
      MinSizeAt(i / 2);
      hide MinSize, Pow2;
      assert i == 2 * (i / 2) || i == 2 * (i / 2) + 1;
    }
  }

  lemma TimesEight(p: int)
    requires p % 8 == 0
    ensures 2 * p % 8 == 0 && 3 * p % 8 == 0
  {
  }

  lemma BinShape(i: nat)
    requires i < NTREEBINS
    ensures Width(BinWidth(i)) && BinLo(i) % 8 == 0
  {
    hide Width, Pow2, MinSize;
    Pow2Width(32);
    Pow2Width(i / 2 + 7);
    MinSizeAt(i / 2);
    var p := Pow2(i / 2 + 7);
    if i % 2 == 0 {
      assert MinSize(i) == 2 * p by { assert i == 2 * (i / 2); }
    } else {
      assert MinSize(i) == 3 * p by { assert i == 2 * (i / 2) + 1; }
    }
    TimesEight(p);
  }

  // ------------------------------------------------------- bits of a size, in order

  /** The bits of a size below those that select its bin, moved to the top of the word. */
  function SizeBits(s: nat, i: nat): int
    requires i < NTREEBINS
  {
    s * Pow2(LeftShift(i)) % TWO32
  }

  /** The bits of s still to be inspected below a node responsible for [lo, lo + w),
      shifted so that the next one is the sign bit. */
  ghost predicate Scaled(bits: int, s: int, lo: int, w: int, u: int) {
    u * w == TWO32 && bits == (s - lo) * u && 0 < w && 0 < u
  }

  lemma SizeBitsScaled(s: nat, i: nat)
    requires i < NTREEBINS
    requires BinLo(i) <= s < BinLo(i) + BinWidth(i)
    ensures Scaled(SizeBits(s, i), s, BinLo(i), BinWidth(i), Pow2(LeftShift(i)))
  {
    var u := Pow2(LeftShift(i));
    var lo, w := BinLo(i), BinWidth(i);
    Pow2Values();
    if i < NTREEBINS - 1 {
      Pow2Add(LeftShift(i), i / 2 + 7);
      assert u * w == TWO32;
      MinSizeAt(i / 2);
      hide Pow2, MinSize;
      var f := 2 + i % 2;
      assert i == 2 * (i / 2) || i == 2 * (i / 2) + 1;
      assert lo == f * w;
      ScaleDown(s, lo, w, u, f);
    } else {
      assert Pow2(0) == 1;
    }
  }

  lemma ScaleDown(s: int, lo: int, w: int, u: int, f: int)
    requires lo <= s < lo + w && lo == f * w && u * w == TWO32 && 0 < u
    ensures s * u % TWO32 == (s - lo) * u
  {
    MulDistribute(s - lo, lo, u);
    MulAssoc(f, w, u);
    MulBelow(s - lo, w, u);
    ModShift((s - lo) * u, f);
  }

  lemma MulAssoc(f: int, w: int, u: int)
    ensures f * w * u == f * (u * w)
  {
  }

  lemma MulDistribute(a: int, b: int, u: int)
    ensures (a + b) * u == a * u + b * u
  {
  }

  lemma MulBelow(a: int, w: int, u: int)
    requires 0 <= a < w && 0 < u
    ensures 0 <= a * u < w * u
  {
  }

  lemma ModShift(r: int, f: int)
    requires 0 <= r < TWO32
    ensures (r + f * TWO32) % TWO32 == r
  {
  }

  /** One step down: the sign bit selects the half s is in, and the shift moves the next bit up. */
  lemma ScaledStep(bits: int, s: int, lo: int, w: int, u: int)
    requires Scaled(bits, s, lo, w, u) && w % 2 == 0 && lo <= s < lo + w
    ensures 0 <= bits < TWO32
    ensures bits / 0x8000_0000 == (if s < lo + w / 2 then 0 else 1)
    ensures Scaled(bits * 2 % TWO32, s, if s < lo + w / 2 then lo else lo + w / 2, w / 2, 2 * u)
  {
    var d, h := s - lo, w / 2;
    HalvedUnit(h, u);
    if d < h {
      MulBelow(d, h, u);
      HalfTimes(d, u);
      DoubledLow(bits);
    } else {
      MulBelow(d - h, h, u);
      MulDistribute(d - h, h, u);
      HalfTimes(d - h, u);
      DoubledHigh(bits);
    }
  }

  /** Half as many sizes are twice as far apart. */
  lemma HalvedUnit(h: int, u: int)
    requires u * (2 * h) == TWO32
    ensures h * u == 0x8000_0000 && (2 * u) * h == TWO32
  {
  }

  lemma DoubledLow(bits: int)
    requires 0 <= bits < 0x8000_0000
    ensures bits / 0x8000_0000 == 0 && bits * 2 % TWO32 == 2 * bits
  {
  }

  lemma DoubledHigh(bits: int)
    requires 0x8000_0000 <= bits < TWO32
    ensures bits / 0x8000_0000 == 1 && bits * 2 % TWO32 == 2 * (bits - 0x8000_0000)
  {
  }

  lemma HalfTimes(h: int, u: int)
    ensures h * (2 * u) == 2 * (h * u) && (2 * h) * u == 2 * (h * u)
  {
  }
}
