/** The 32-bit maps that say which bins are non-empty, and the bit tricks that search them.
    A binmap_t is given by its 32 bits, least significant first. */
module BinMaps {

  function Zeros(n: nat): (z: seq<bool>)
    ensures |z| == n && forall k | 0 <= k < n :: !z[k]
  {
    if n == 0 then [] else Zeros(n - 1) + [false]
  }

  type BinMap = b: seq<bool> | |b| == 32 witness Zeros(32)

  const EMPTY: BinMap := Zeros(32)

  predicate IsZero(b: seq<bool>) {
    forall k | 0 <= k < |b| :: !b[k]
  }

  // ------------------------------------------------------------ C operators on words

  function Or(x: BinMap, y: BinMap): BinMap { seq(32, k requires 0 <= k < 32 => x[k] || y[k]) }
  function And(x: BinMap, y: BinMap): BinMap { seq(32, k requires 0 <= k < 32 => x[k] && y[k]) }
  function Not(x: BinMap): BinMap { seq(32, k requires 0 <= k < 32 => !x[k]) }

  /** Adding one: the carry runs through the low ones. */
  function Increment(x: seq<bool>): (y: seq<bool>)
    ensures |y| == |x|
  {
    if x == [] then [] else if x[0] then [false] + Increment(x[1..]) else [true] + x[1..]
  }

  /** Unsigned negation, -x. */
  function Negate(x: BinMap): BinMap { Increment(Not(x)) }

  function ShiftLeft(x: BinMap, n: nat): BinMap
    requires n <= 32
  {
    Zeros(n) + x[..32 - n]
  }

  function ShiftRight(x: BinMap, n: nat): BinMap
    requires n <= 32
  {
    x[n..] + Zeros(n)
  }

  // ------------------------------------------------------------------ the macros

  /** idx2bit. */
  function IdxBit(i: nat): BinMap
    requires i < 32
  {
    EMPTY[i := true]
  }

  /** mark_smallmap and clear_smallmap, mark_treemap and clear_treemap. */
  function Mark(b: BinMap, i: nat): BinMap
    requires i < 32
  {
    Or(b, IdxBit(i))
  }

  function Clear(b: BinMap, i: nat): BinMap
    requires i < 32
  {
    And(b, Not(IdxBit(i)))
  }

  /** least_bit and left_bits. */
  function LeastBit(x: BinMap): BinMap { And(x, Negate(x)) }
  function LeftBits(x: BinMap): BinMap { Or(ShiftLeft(x, 1), Negate(ShiftLeft(x, 1))) }

  /** compute_bit2idx: the number of trailing zero bits. */
  function TrailingZeros(x: seq<bool>): (k: nat)
    ensures k <= |x|
    ensures k < |x| ==> x[k]
    ensures forall j | 0 <= j < k :: !x[j]
  {
    if x == [] || x[0] then 0 else 1 + TrailingZeros(x[1..])
  }

  // ------------------------------------------------------------------ what they do

  lemma MarkMarks(b: BinMap, i: nat)
    requires i < 32
    ensures Mark(b, i) == b[i := true]
    ensures Clear(b, i) == b[i := false]
  {
  }

  /** -x keeps the lowest set bit of x, the zeros below it, and flips every bit above it. */
  lemma {:induction false} IncrementBits(y: seq<bool>, k: nat)
    requires k < |y|
    ensures Increment(y)[k] == if (forall j | 0 <= j < k :: y[j]) then !y[k] else y[k]
  {
    if y[0] {
      if k > 0 {
        IncrementBits(y[1..], k - 1);
        assert (forall j | 0 <= j < k :: y[j]) <==> (forall j | 0 <= j < k - 1 :: y[1..][j]) by {
          assert forall j | 0 <= j < k - 1 :: y[1..][j] == y[j + 1];
          if forall j | 0 <= j < k - 1 :: y[1..][j] {
            forall j | 0 <= j < k ensures y[j] {
              if j > 0 { assert y[1..][j - 1]; }
            }
          }
        }
      }
    } else if k > 0 {
      assert !y[0];
    }
  }

  lemma NegateBits(x: BinMap, k: nat)
    requires k < 32
    ensures Negate(x)[k] == if (forall j | 0 <= j < k :: !x[j]) then x[k] else !x[k]
  {
    var y := Not(x);
    IncrementBits(y, k);
    assert forall j | 0 <= j < 32 :: y[j] == !x[j];
  }

  lemma LeastBitBits(x: BinMap, k: nat)
    requires k < 32
    ensures LeastBit(x)[k] <==> x[k] && forall j | 0 <= j < k :: !x[j]
  {
    NegateBits(x, k);
  }

  /** The index computed from the isolated least bit is that of the first marked bin. */
  lemma FirstMarked(x: BinMap)
    requires !IsZero(x)
    ensures var k := TrailingZeros(LeastBit(x));
            k < 32 && x[k] && forall j | 0 <= j < k :: !x[j]
  {
    var k := TrailingZeros(x);
    assert k < 32;
    LeastBitBits(x, k);
    var b := LeastBit(x);
    forall j | 0 <= j < k ensures !b[j] { LeastBitBits(x, j); }
    assert TrailingZeros(b) == k;
  }

  /** left_bits(idx2bit(i)) has exactly the bits above i. */
  lemma LeftBitsAbove(i: nat, k: nat)
    requires i < 32 && k < 32
    ensures LeftBits(IdxBit(i))[k] <==> i < k
  {
    var s := ShiftLeft(IdxBit(i), 1);
    assert forall j | 0 <= j < 32 :: s[j] <==> j == i + 1;
    NegateBits(s, k);
    if i + 1 < k { assert s[i + 1]; }
  }

  /** left_bits(idx2bit(idx)) & map. */
  function Above(b: BinMap, i: nat): BinMap
    requires i < 32
  {
    And(LeftBits(IdxBit(i)), b)
  }

  lemma AboveMarks(b: BinMap, i: nat)
    requires i < 32
    ensures forall k | 0 <= k < 32 :: Above(b, i)[k] <==> i < k && b[k]
  {
    forall k | 0 <= k < 32 ensures Above(b, i)[k] <==> i < k && b[k] {
      LeftBitsAbove(i, k);
    }
  }

  /** smallbits = smallmap >> idx: bit 0 and bit 1 are bins idx and idx + 1; shifted back up and
      cut with left_bits it is the map of the bins above idx. */
  lemma SmallBits(b: BinMap, i: nat)
    requires i < 32
    ensures ShiftRight(b, i)[0] == b[i]
    ensures ShiftRight(b, i)[1] == (i < 31 && b[i + 1])
    ensures And(ShiftLeft(ShiftRight(b, i), i), LeftBits(IdxBit(i))) == Above(b, i)
    ensures !ShiftRight(b, i)[0] && !IsZero(ShiftRight(b, i)) ==> !IsZero(Above(b, i))
  {
    AboveMarks(b, i);
    var s := ShiftRight(b, i);
    forall k | 0 <= k < 32
      ensures And(ShiftLeft(s, i), LeftBits(IdxBit(i)))[k] == Above(b, i)[k]
    {
      LeftBitsAbove(i, k);
      if k > i { assert ShiftLeft(s, i)[k] == s[k - i] == b[k]; }
    }
    if !s[0] && !IsZero(s) {
      var k :| 0 <= k < 32 && s[k];
      assert b[k + i] && Above(b, i)[k + i];
    }
  }
}
