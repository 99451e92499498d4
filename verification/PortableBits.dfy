/** The branch-free forms of the bit searches, which the file falls back to where the compiler has no
    instruction for them, agree with the instructions. */
module PortableBits {
  import opened Arithmetic
  import opened BinIndex

  // ------------------------------------------------------------- index of the highest bit

  /** (y - c) >> 16 & b on 32-bit words, for a power of two b. */
  function Below(y: int, c: int, b: int): int
    requires b > 0
  {
    if (y - c) % 0x1_0000_0000 / 0x1_0000 / b % 2 == 1 then b else 0
  }

  lemma BelowTests(y: int, c: int, b: int)
    requires 0 <= y < 0x1_0000 && 0 < c < 0x1_0000 && b in {2, 4, 8}
    ensures Below(y, c, b) == if y < c then b else 0
  {
    if y < c {
      assert (y - c) % 0x1_0000_0000 == 0x1_0000_0000 + y - c;
      assert (0x1_0000_0000 + y - c) / 0x1_0000 == 0xFFFF;
    } else {
      assert (y - c) % 0x1_0000_0000 == y - c && (y - c) / 0x1_0000 == 0;
    }
  }

  function ShiftedBy(y: int, n: nat): int { y * Pow2(n) }

  /** K of the last compute_tree_index, for 0 < X <= 0xFFFF. */
  function PortableLog2(x: nat): int {
    var n0 := Below(x, 0x100, 8);
    var y0 := ShiftedBy(x, n0);
    var k1 := Below(y0, 0x1000, 4);
    var y1 := ShiftedBy(y0, k1);
    var k2 := Below(y1, 0x4000, 2);
    var y2 := ShiftedBy(y1, k2);
    14 - (n0 + k1 + k2) + y2 / 0x8000
  }

  lemma SmallPowers()
    ensures Pow2(0) == 1 && Pow2(1) == 2 && Pow2(2) == 4 && Pow2(4) == 16 && Pow2(8) == 256
    ensures Pow2(14) == 0x4000 && Pow2(15) == 0x8000 && Pow2(16) == 0x1_0000
  {
    assert Pow2(3) == 8 && Pow2(6) == 8 * Pow2(3) && Pow2(9) == 8 * Pow2(6) && Pow2(12) == 8 * Pow2(9);
  }

  /** One step: below c, shift by b places, which brings y from lo up to c at least. */
  lemma ShiftStep(y: int, lo: int, c: int, b: int)
    requires lo <= y < 0x1_0000
    requires (lo == 1 && c == 0x100 && b == 8) || (lo == 0x100 && c == 0x1000 && b == 4)
             || (lo == 0x1000 && c == 0x4000 && b == 2)
    ensures var k := Below(y, c, b); (k == 0 || k == b) && c <= ShiftedBy(y, k) < 0x1_0000
  {
    BelowTests(y, c, b);
    SmallPowers();
    hide Below, Pow2;
  }

  lemma ShiftTwice(x: int, a: nat, b: nat)
    ensures ShiftedBy(ShiftedBy(x, a), b) == ShiftedBy(x, a + b)
  {
    Pow2Add(a, b);
    MulAssoc(x, Pow2(a), Pow2(b));
    hide Pow2;
    assert Pow2(b) * Pow2(a) == Pow2(a) * Pow2(b);
  }

  /** The three steps shift x into [0x4000, 0x10000). */
  lemma Normalised(x: nat) returns (n: nat)
    requires 1 <= x <= 0xFFFF
    ensures n <= 14 && 0x4000 <= ShiftedBy(x, n) < 0x1_0000
    ensures PortableLog2(x) == 14 - n + ShiftedBy(x, n) / 0x8000
  {
    var n0 := Below(x, 0x100, 8);
    var y0 := ShiftedBy(x, n0);
    var k1 := Below(y0, 0x1000, 4);
    var y1 := ShiftedBy(y0, k1);
    var k2 := Below(y1, 0x4000, 2);
    hide Below, ShiftedBy;
    ShiftStep(x, 1, 0x100, 8);
    ShiftStep(y0, 0x100, 0x1000, 4);
    ShiftStep(y1, 0x1000, 0x4000, 2);
    ShiftTwice(x, n0, k1);
    ShiftTwice(x, n0 + k1, k2);
    n := n0 + k1 + k2;
  }

  lemma {:induction false} Log2Unique(x: nat, k: nat)
    requires x >= 1 && Pow2(k) <= x < Pow2(k + 1)
    ensures Log2(x) == k
  {
    if x > 1 { Log2Unique(x / 2, k - 1); }
  }

  lemma Cancel(a: int, b: int, p: int)
    requires p > 0
    ensures a * p <= b * p ==> a <= b
    ensures a * p < b * p ==> a < b
  {
    MulMinus(a, b, p);
    MulAtLeast(a - b, p);
  }

  /** The branch-free logarithm is the one that clz gives. */
  lemma PortableLog2Agrees(x: nat)
    requires 1 <= x <= 0xFFFF
    ensures PortableLog2(x) == Log2(x)
  {
    var n := Normalised(x);
    hide *;
    ShiftedIs(x, n);
    var p, y := Pow2(n), ShiftedBy(x, n);
    var top := if y < 0x8000 then 14 else 15;
    SmallPowers();
    Pow2Add(top - n, n);
    Pow2Add(top + 1 - n, n);
    Cancel(Pow2(top - n), x, p);
    Cancel(x, Pow2(top + 1 - n), p);
    Log2Unique(x, top - n);
  }

  lemma ShiftedIs(x: int, n: nat)
    ensures ShiftedBy(x, n) == x * Pow2(n) && Pow2(n) > 0
  {
  }

  /** compute_tree_index in its branch-free form. */
  function PortableTreeIndex(s: nat): int {
    var x := s / 256;
    if x == 0 then 0
    else if x > 0xFFFF then NTREEBINS - 1
    else
      var k := PortableLog2(x);
      2 * k + (if k >= 0 then BitAt(s, k + TREEBIN_SHIFT - 1) else 0)
  }

  lemma PortableTreeIndexAgrees(s: nat)
    ensures PortableTreeIndex(s) == TreeIndex(s)
  {
    var x := s / 256;
    if 0 < x <= 0xFFFF { PortableLog2Agrees(x); }
    hide PortableLog2;
  }

  // --------------------------------------------------------------- index of a single bit

  function Shr(y: nat, n: nat): nat {
    ShrNatural(y, n);
    y / Pow2(n)
  }

  lemma ShrNatural(y: nat, n: nat)
    ensures y / Pow2(n) >= 0
  {
    var p := Pow2(n);
    hide Pow2;
  }

  /** y >> k' & k, where k' brings bit k to the place of weight k. */
  function BitOf(y: nat, k: nat): nat { if Shr(y, k) % 2 == 1 then k else 0 }

  /** The steps of the last compute_bit2idx from weight k down. */
  function Halving(y: nat, k: nat): nat {
    if k == 0 then y else BitOf(y, k) + Halving(Shr(y, BitOf(y, k)), k / 2)
  }

  /** The last compute_bit2idx: five halving steps on X - 1. */
  function PortableIndex(x: nat): nat
    requires x > 0
  {
    Halving(x - 1, 16)
  }

  /** j ones. */
  function Ones(j: nat): nat { Pow2(j) - 1 }

  lemma ShiftOnes(j: nat, k: nat)
    ensures Shr(Ones(j), k) == Ones(if k < j then j - k else 0)
  {
    if k < j {
      Pow2Add(k, j - k);
      MulMinus(Pow2(j - k), 1, Pow2(k));
      DivModUnique(Ones(j), Pow2(k), Pow2(j - k) - 1, Pow2(k) - 1);
    } else {
      if j < k { Pow2Monotone(j, k); }
      DivModUnique(Ones(j), Pow2(k), 0, Ones(j));
    }
  }

  lemma OnesOdd(j: nat)
    ensures Ones(j) % 2 == if j > 0 then 1 else 0
  {
    assert Pow2(0) == 1;
  }

  /** Bit k of j ones is set exactly when k < j, and then k of them go. */
  lemma OnesStep(j: nat, k: nat)
    ensures BitOf(Ones(j), k) == (if k < j then k else 0)
    ensures Shr(Ones(j), BitOf(Ones(j), k)) == Ones(if k < j then j - k else j)
  {
    ShiftOnes(j, k);
    ShiftOnes(j, 0);
    OnesOdd(if k < j then j - k else 0);
    hide Ones, Shr;
  }

  lemma {:induction false} HalvingOnes(j: nat, k: nat)
    requires k in {16, 8, 4, 2, 1, 0} && (if k == 0 then j <= 1 else j <= 2 * k)
    ensures Halving(Ones(j), k) == j
  {
    if k == 0 {
      FewOnes();
    } else {
      OnesStep(j, k);
      HalvingOnes(if k < j then j - k else j, k / 2);
    }
    hide Ones, Shr, BitOf;
  }

  /** The branch-free index of a bit is its place. */
  lemma PortableIndexAgrees(i: nat)
    requires i < 32
    ensures PortableIndex(Pow2(i)) == i
  {
    hide *;
    var k: nat := 16;
    PortableIs(i, k);
    HalvingOnes(i, k);
  }

  lemma PortableIs(i: nat, k: nat)
    requires k == 16
    ensures Pow2(i) > 0 && Ones(i) == Pow2(i) - 1 && PortableIndex(Pow2(i)) == Halving(Ones(i), k)
  {
    hide Halving, Pow2;
  }

  lemma FewOnes()
    ensures Ones(0) == 0 && Ones(1) == 1
  {
    assert Pow2(0) == 1 && Pow2(1) == 2;
  }
}
