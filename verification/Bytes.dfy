/** Bytes inside the words of memory, lowest address first. */
module Bytes {
  import opened Arithmetic
  import opened Words

  function Shift(k: int): (s: int)
    requires 0 <= k < 4
    ensures s >= 1
  {
    if k == 0 then 1 else if k == 1 then 0x100 else if k == 2 then 0x1_0000 else 0x100_0000
  }

  function RdByte(m: Mem, a: int): int {
    Rd(m, a - a % 4) / Shift(a % 4) % 256
  }

  /** The word with byte k replaced by v. */
  function WithByte(w: int, k: int, v: int): int
    requires 0 <= k < 4
  {
    w + (v - w / Shift(k) % 256) * Shift(k)
  }

  function StoreByte(m: Mem, a: int, v: int): Mem {
    m[a - a % 4 := WithByte(Rd(m, a - a % 4), a % 4, v)]
  }

  /** Dividing in two steps. */
  lemma DivTwice(w: int, a: int, b: int)
    requires a > 0 && b > 0
    ensures a * b > 0 && w / a / b == w / (a * b)
  {
    var q := w / a / b;
    var r1, r2 := w % a, w / a % b;
    assert w == (w / a) * a + r1;
    assert w / a == q * b + r2;
    assert r2 * a + r1 < a * b && a * b > 0 && r2 * a >= 0 by { MulBelow(r2, a, b, r1); }
    assert w == q * (a * b) + (r2 * a + r1) by { Regroup(q, b, r2, a); }
    DivModUnique(w, a * b, q, r2 * a + r1);
  }

  lemma Regroup(q: int, b: int, r2: int, a: int)
    ensures (q * b + r2) * a == q * (a * b) + r2 * a
  {
  }

  lemma MulBelow(r2: int, a: int, b: int, r1: int)
    requires 0 <= r2 < b && 0 <= r1 < a
    ensures r2 * a >= 0 && r2 * a + r1 < a * b && a * b > 0
  {
    assert (r2 + 1) * a <= b * a;
  }

  /** The byte at p replaced: above, at and below it. */
  lemma ReplacedByte(w: int, p: int, v: int)
    requires p > 0 && 0 <= v < 256
    ensures var w' := w + (v - w / p % 256) * p;
            && w' / p == w / p - w / p % 256 + v
            && w' / p % 256 == v && w' / p / 256 == w / p / 256
  {
    var q := w / p;
    var w' := w + (v - q % 256) * p;
    assert w == q * p + w % p;
    assert w' == (q + (v - q % 256)) * p + w % p by { AddMul(q, v - q % 256, p); }
    DivModUnique(w', p, q + (v - q % 256), w % p);
    NewLow(q, v);
  }

  lemma AddMul(q: int, d: int, p: int)
    ensures q * p + d * p == (q + d) * p
  {
  }

  lemma NewLow(q: int, v: int)
    requires 0 <= v < 256
    ensures (q - q % 256 + v) % 256 == v && (q - q % 256 + v) / 256 == q / 256
  {
  }

  /** Adding a multiple of 256 * s does not change the byte at s. */
  lemma LowerByte(w: int, s: int, d: int)
    requires s > 0
    ensures (w + d * (256 * s)) / s % 256 == w / s % 256
  {
    assert w == w / s * s + w % s;
    assert w + d * (256 * s) == (w / s + 256 * d) * s + w % s by { AddMul(w / s, 256 * d, s); AssocMul(d, s); }
    DivModUnique(w + d * (256 * s), s, w / s + 256 * d, w % s);
    AddMod(w / s, d);
  }

  lemma AssocMul(d: int, s: int)
    ensures d * (256 * s) == 256 * d * s
  {
  }

  lemma AddMod(q: int, d: int)
    ensures (q + 256 * d) % 256 == q % 256
  {
  }

  lemma WithByteReads(w: int, k: int, v: int, j: int)
    requires 0 <= k < 4 && 0 <= v < 256 && 0 <= j < 4
    ensures WithByte(w, k, v) / Shift(j) % 256 == if j == k then v else w / Shift(j) % 256
  {
    var p := Shift(k);
    var d := v - w / p % 256;
    var w' := WithByte(w, k, v);
    assert w' == w + d * p;
    if j >= k {
      ReplacedByte(w, p, v);
      if j > k { HigherByte(w, w', k, j); }
    } else {
      LowByte(w, k, j, d);
    }
  }

  lemma HigherByte(w: int, w': int, k: int, j: int)
    requires 0 <= k < j < 4 && w' / Shift(k) / 256 == w / Shift(k) / 256
    ensures w' / Shift(j) == w / Shift(j)
  {
    var p, m := Shift(k), if j == k + 1 then 1 else if j == k + 2 then 0x100 else 0x1_0000;
    assert p * 256 * m == Shift(j) && p * 256 > 0;
    hide Shift;
    DivTwice(w, p, 256);
    DivTwice(w', p, 256);
    DivTwice(w, p * 256, m);
    DivTwice(w', p * 256, m);
  }

  lemma LowByte(w: int, k: int, j: int, d: int)
    requires 0 <= j < k < 4
    ensures (w + d * Shift(k)) / Shift(j) % 256 == w / Shift(j) % 256
  {
    var s, m := Shift(j), if k == j + 1 then 1 else if k == j + 2 then 0x100 else 0x1_0000;
    assert m * (256 * s) == Shift(k);
    hide Shift;
    assert d * (m * (256 * s)) == d * m * (256 * s) by { MulAssoc(d, m, 256 * s); }
    LowerByte(w, s, d * m);
  }

  lemma MulAssoc(a: int, b: int, c: int)
    ensures a * (b * c) == a * b * c
  {
  }

  /** A stored byte is read back, and no other byte changes. */
  lemma StoreByteReads(m: Mem, a: int, v: int, b: int)
    requires 0 <= v < 256
    ensures RdByte(StoreByte(m, a, v), b) == if b == a then v else RdByte(m, b)
  {
    hide WithByte, Shift;
    if b - b % 4 == a - a % 4 {
      var w, k, j := Rd(m, a - a % 4), a % 4, b % 4;
      WithByteReads(w, k, v, j);
    }
  }

  function ByteOf(m: Mem, a: int, i: int): int { RdByte(m, a + i) }

  /** The n bytes at b in m' are the n bytes at a in m. */
  ghost predicate SameBytes(m: Mem, a: int, m': Mem, b: int, n: int) {
    forall i {:trigger ByteOf(m', b, i)} | 0 <= i < n :: ByteOf(m', b, i) == ByteOf(m, a, i)
  }

  lemma SameBytesTransitive(m: Mem, a: int, m1: Mem, b: int, m2: Mem, c: int, n: int)
    requires SameBytes(m, a, m1, b, n) && SameBytes(m1, b, m2, c, n)
    ensures SameBytes(m, a, m2, c, n)
  {
    hide ByteOf;
    forall i | 0 <= i < n ensures ByteOf(m2, c, i) == ByteOf(m, a, i) {
      assert ByteOf(m1, b, i) == ByteOf(m, a, i);
    }
  }

  lemma WordToByte(m: Mem, m': Mem, lo: int, n: int, i: int)
    requires lo % 4 == 0 && 0 <= i < n && forall a | lo <= a < lo + n :: Rd(m', a) == Rd(m, a)
    ensures ByteOf(m', lo, i) == ByteOf(m, lo, i)
  {
    hide Shift;
    assert lo <= lo + i - (lo + i) % 4 < lo + n;
  }

  /** Words that are the same have the same bytes. */
  lemma WordsToBytes(m: Mem, m': Mem, lo: int, n: int)
    requires lo % 4 == 0 && forall a | lo <= a < lo + n :: Rd(m', a) == Rd(m, a)
    ensures SameBytes(m, lo, m', lo, n)
  {
    hide ByteOf;
    forall i | 0 <= i < n ensures ByteOf(m', lo, i) == ByteOf(m, lo, i) {
      WordToByte(m, m', lo, n, i);
    }
  }

  lemma StoreWords(m: Mem, a: int, v: int)
    ensures forall x | x != a - a % 4 :: Rd(StoreByte(m, a, v), x) == Rd(m, x)
  {
  }

  /** One turn of a byte copy. */
  lemma CopyStep(m0: Mem, m: Mem, dst: int, src: int, i: int, n: int)
    requires 0 <= i < n && dst % 4 == 0 && (src + n <= dst || dst + n <= src)
    requires SameBytes(m0, src, m, dst, i)
    requires forall b | !(dst <= b < dst + i) :: RdByte(m, b) == RdByte(m0, b)
    requires forall a | !(dst <= a < dst + i) :: Rd(m, a) == Rd(m0, a)
    ensures var m' := StoreByte(m, dst + i, RdByte(m, src + i));
            && SameBytes(m0, src, m', dst, i + 1)
            && (forall b | !(dst <= b < dst + i + 1) :: RdByte(m', b) == RdByte(m0, b))
            && (forall a | !(dst <= a < dst + i + 1) :: Rd(m', a) == Rd(m0, a))
  {
    hide *;
    var v := RdByte(m, src + i);
    var m' := StoreByte(m, dst + i, v);
    ByteRange(m, src + i);
    WordStart(dst, i);
    StoreWords(m, dst + i, v);
    forall b ensures RdByte(m', b) == if b == dst + i then v else RdByte(m, b) {
      StoreByteReads(m, dst + i, v, b);
    }
    ExtendBytes(m0, m, m', dst, src, i, v);
  }

  lemma ByteRange(m: Mem, a: int)
    ensures 0 <= RdByte(m, a) < 256
  {
    hide Shift;
  }

  lemma WordStart(dst: int, i: int)
    requires dst % 4 == 0 && 0 <= i
    ensures dst <= dst + i - (dst + i) % 4 <= dst + i
  {
  }

  lemma ExtendBytes(m0: Mem, m: Mem, m': Mem, dst: int, src: int, i: int, v: int)
    requires SameBytes(m0, src, m, dst, i) && v == RdByte(m0, src + i)
    requires forall b :: RdByte(m', b) == if b == dst + i then v else RdByte(m, b)
    ensures SameBytes(m0, src, m', dst, i + 1)
  {
    hide RdByte;
    forall j | 0 <= j < i + 1 ensures ByteOf(m', dst, j) == ByteOf(m0, src, j) {
      if j < i { assert ByteOf(m, dst, j) == ByteOf(m0, src, j); }
    }
  }
}
