/** Powers of two and the bit masks that memalign computes with. */
module Alignment {
  import opened Arithmetic

  predicate PowerOfTwo(n: nat) {
    n == 1 || (n > 1 && n % 2 == 0 && PowerOfTwo(n / 2))
  }

  /** x & y. */
  function BitAnd(x: nat, y: nat): nat {
    if x == 0 || y == 0 then 0 else 2 * BitAnd(x / 2, y / 2) + (if x % 2 == 1 && y % 2 == 1 then 1 else 0)
  }

  /** alignment & (alignment - 1) is zero exactly for powers of two. */
  lemma {:induction false} PowerTest(n: nat)
    requires n >= 1
    ensures BitAnd(n, n - 1) == 0 <==> PowerOfTwo(n)
  {
    if n > 1 {
      if n % 2 == 0 {
        PowerTest(n / 2);
        assert (n - 1) / 2 == n / 2 - 1;
      } else {
        assert n / 2 == (n - 1) / 2;
        AndSelf(n / 2);
      }
    }
  }

  lemma {:induction false} AndSelf(n: nat)
    ensures BitAnd(n, n) == n
  {
    if n > 0 { AndSelf(n / 2); }
  }

  /** x & (a - 1) is the remainder for a power of two a. */
  lemma {:induction false} MaskLow(x: nat, a: nat)
    requires PowerOfTwo(a)
    ensures BitAnd(x, a - 1) == x % a
  {
    if a > 1 {
      var h := a / 2;
      assert a == 2 * h && PowerOfTwo(h);
      MaskLow(x / 2, h);
      HalfMod(x, h);
      AndStep(x, a - 1);
      OddHalf(a, h);
      hide BitAnd;
    } else {
      assert BitAnd(x, 0) == 0;
    }
  }

  lemma AndStep(x: nat, y: nat)
    ensures BitAnd(x, y) == 2 * BitAnd(x / 2, y / 2) + (if x % 2 == 1 && y % 2 == 1 then 1 else 0)
  {
  }

  lemma OddHalf(a: nat, h: nat)
    requires a == 2 * h && h >= 1
    ensures (a - 1) / 2 == h - 1 && (a - 1) % 2 == 1
  {
  }

  lemma EvenHalf(w: nat, v: nat, a: nat, h: nat)
    requires w == 2 * v && a == 2 * h && h <= v
    ensures (w - a) / 2 == v - h && (w - a) % 2 == 0
  {
  }

  lemma SmallMod(x: nat, m: nat)
    requires x < m
    ensures x % m == x && x % 1 == 0
  {
  }

  lemma HalfMod(x: nat, h: nat)
    requires h > 0
    ensures x % (2 * h) == 2 * (x / 2 % h) + x % 2
  {
    var q, r := x / 2 / h, x / 2 % h;
    assert x / 2 == q * h + r;
    assert x == q * (2 * h) + (2 * r + x % 2) by { Regroup(q, h); }
    DivModUnique(x, 2 * h, q, 2 * r + x % 2);
  }

  lemma Regroup(q: int, h: int)
    ensures q * (2 * h) == 2 * (q * h)
  {
  }

  /** x & -a, with -a taken in a word of w values, rounds down to a multiple of a. */
  lemma {:induction false} MaskHigh(x: nat, a: nat, w: nat)
    requires PowerOfTwo(a) && PowerOfTwo(w) && a <= w && x < w
    ensures BitAnd(x, w - a) == x - x % a
  {
    if a == 1 {
      MaskLow(x, w);
      SmallMod(x, w);
    } else if a < w {
      Halves(a, w);
      var h, v := a / 2, w / 2;
      MaskHigh(x / 2, h, v);
      HalfMod(x, h);
      AndStep(x, w - a);
      EvenHalf(w, v, a, h);
      hide BitAnd;
    } else {
      assert BitAnd(x, 0) == 0;
      SmallMod(x, a);
    }
  }

  lemma {:induction false} Halves(a: nat, w: nat)
    requires PowerOfTwo(a) && PowerOfTwo(w) && 1 < a < w
    ensures a % 2 == 0 && w % 2 == 0 && PowerOfTwo(a / 2) && PowerOfTwo(w / 2) && a / 2 <= w / 2
  {
  }

  /** Between a power of two and its double there is no other. */
  lemma {:induction false} NextPower(a: nat, n: nat)
    requires PowerOfTwo(a) && PowerOfTwo(n) && a < n
    ensures 2 * a <= n
  {
    if a > 1 { NextPower(a / 2, n / 2); }
  }

  lemma DoublePower(a: nat)
    requires PowerOfTwo(a)
    ensures PowerOfTwo(2 * a)
  {
    assert (2 * a) / 2 == a;
  }

  /** The rounding loop of internal_memalign never ends for a request above 2^31: doubling 16
      reaches 0 after 28 turns and stays there. */
  function Doubled(turns: nat): int {
    if turns == 0 then 16 else Doubled(turns - 1) * 2 % 0x1_0000_0000
  }

  lemma {:induction false} DoubledGrows(turns: nat)
    requires turns < 28
    ensures Doubled(turns) == 16 * Power(turns) <= 0x8000_0000
  {
    Power27();
    PowerBelow(turns, 27);
    if turns > 0 { DoubledGrows(turns - 1); }
  }

  lemma {:induction false} DoubledDies(turns: nat)
    requires turns >= 28
    ensures Doubled(turns) == 0
  {
    hide *;
    if turns == 28 {
      DoubledGrows(27);
      Power27();
    } else {
      DoubledDies(turns - 1);
    }
    OneTurn(turns);
    TopBitLost(Doubled(turns - 1));
  }

  lemma OneTurn(turns: nat)
    requires turns > 0
    ensures Doubled(turns) == Doubled(turns - 1) * 2 % 0x1_0000_0000
  {
  }

  lemma TopBitLost(x: int)
    requires x == 0x8000_0000 || x == 0
    ensures x * 2 % 0x1_0000_0000 == 0
  {
  }

  function Power(n: nat): nat { if n == 0 then 1 else 2 * Power(n - 1) }

  lemma Power27()
    ensures Power(27) == 0x800_0000
  {
    assert Power(9) == 0x200;
    assert Power(18) == 0x4_0000;
  }

  lemma {:induction false} PowerBelow(a: nat, b: nat)
    requires a <= b
    ensures Power(a) <= Power(b)
  {
    if a < b { PowerBelow(a, b - 1); }
  }

  lemma LoopNeverEnds(alignment: int, turns: nat)
    requires alignment > 0x8000_0000
    ensures Doubled(turns) < alignment
  {
    if turns < 28 { DoubledGrows(turns); } else { DoubledDies(turns); }
  }

  /** The least power of two from 16 up that is not below n. */
  ghost predicate RoundedUp(n: int, a: int) {
    16 <= a <= 0x8000_0000 && PowerOfTwo(a) && n <= a && (16 < a ==> a < 2 * n)
  }

  lemma PowerFacts(a: nat)
    requires PowerOfTwo(a) && a >= 16
    ensures a % 8 == 0 && a % 16 == 0
  {
    assert PowerOfTwo(a / 2) && PowerOfTwo(a / 2 / 2) && PowerOfTwo(a / 2 / 2 / 2);
    assert a / 2 % 2 == 0 && a / 2 / 2 % 2 == 0 && a / 2 / 2 / 2 % 2 == 0;
    Sixteen(a);
  }

  lemma Sixteen(a: nat)
    requires a % 2 == 0 && a / 2 % 2 == 0 && a / 2 / 2 % 2 == 0 && a / 2 / 2 / 2 % 2 == 0
    ensures a % 16 == 0 && a % 8 == 0
  {
    var b := a / 2;
    var c := b / 2;
    var d := c / 2;
    var e := d / 2;
    assert a == 2 * b && b == 2 * c && c == 2 * d && d == 2 * e;
    TimesSixteen(a, e);
  }

  lemma TimesSixteen(a: int, e: int)
    requires a == 16 * e
    ensures a % 16 == 0 && a % 8 == 0
  {
  }

  lemma {:induction false} PowerIsPower(n: nat)
    ensures PowerOfTwo(Power(n)) && Power(n) >= 1
  {
    if n > 0 {
      PowerIsPower(n - 1);
      DoublePower(Power(n - 1));
    }
  }

  lemma Power32()
    ensures PowerOfTwo(0x1_0000_0000) && PowerOfTwo(0x8000_0000) && PowerOfTwo(16)
  {
    Power27();
    assert Power(4) == 16;
    assert Power(31) == 16 * Power(27) && Power(32) == 32 * Power(27) by {
      assert Power(29) == 4 * Power(27);
    }
    PowerIsPower(4);
    PowerIsPower(31);
    PowerIsPower(32);
  }

  /** Where memalign puts the aligned chunk in a chunk at p with user pointer p + 8. */
  lemma AlignedSpot(p: int, a: int)
    requires 0 <= p && p % 8 == 0 && 16 <= a && PowerOfTwo(a) && (p + 8) % a != 0
    requires p + 8 + a - 1 < 0x1_0000_0000 && a <= 0x8000_0000
    ensures var up := BitAnd(p + 8 + a - 1, 0x1_0000_0000 - a);
            var br := up - 8;
            var pos := if br - p >= 16 then br else br + a;
            && up % a == 0 && 16 <= pos - p <= a + 8 && (pos - p) % 8 == 0 && (pos + 8) % a == 0
            && FirstSpot(p, pos, a)
  {
    hide *;
    Power32();
    var x := p + 8 + a - 1;
    MaskHigh(x, a, 0x1_0000_0000);
    PowerFacts(a);
    UpTo(p + 8, a);
    SpotFits(p, x - x % a, a);
    SpotFirst(p, x - x % a, a);
  }

  /** The payload of a chunk at p is aligned. */
  predicate AlignedAt(p: int, a: int)
    requires a > 0
  {
    (p + 8) % a == 0
  }

  /** The first place from p on where an aligned block can start: p itself, or behind a leader that is
      large enough for a chunk. */
  ghost predicate FirstSpot(p: int, pos: int, a: int)
    requires a > 0
  {
    && p <= pos && AlignedAt(pos, a) && (pos == p || 16 <= pos - p)
    && forall q | p <= q < pos && AlignedAt(q, a) :: q != p && q - p < 16
  }

  lemma FirstSpotHere(p: int, a: int)
    requires a > 0
    ensures (p + 8) % a == 0 ==> FirstSpot(p, p, a)
  {
  }

  lemma SpotFirst(p: int, up: int, a: int)
    requires 16 <= a && p + 8 < up < p + 8 + a && up % a == 0 && (up + a) % a == 0
    ensures FirstSpot(p, if up - 8 - p >= 16 then up - 8 else up - 8 + a, a)
  {
    var pos := if up - 8 - p >= 16 then up - 8 else up - 8 + a;
    assert AlignedAt(pos, a);
    forall q | p <= q < pos && AlignedAt(q, a) ensures q == up - 8 && up - 8 - p < 16 {
      BetweenMultiples(q + 8, up, a);
      BetweenMultiples(up, q + 8, a);
    }
  }

  /** There is no multiple strictly between two that are next to each other. */
  lemma BetweenMultiples(x: int, y: int, a: int)
    requires a > 0 && x % a == 0 && y % a == 0
    ensures y <= x || y >= x + a
  {
    var i, j := x / a, y / a;
    assert x == a * i && y == a * j;
    if j > i { Ordered(i + 1, j, a); }
  }

  lemma Ordered(i: int, j: int, a: int)
    requires a > 0 && i <= j
    ensures a * i <= a * j
  {
  }

  lemma SpotFits(p: int, up: int, a: int)
    requires p % 8 == 0 && 16 <= a && a % 8 == 0 && p + 8 < up < p + 8 + a && up % a == 0 && (up + a) % a == 0
    ensures var br := up - 8;
            var pos := if br - p >= 16 then br else br + a;
            16 <= pos - p <= a + 8 && (pos - p) % 8 == 0 && (pos + 8) % a == 0
  {
    MultipleOf(up, a);
    EightApart(p, up, a);
    hide *;
  }

  lemma EightApart(p: int, up: int, a: int)
    requires p % 8 == 0 && up % 8 == 0 && a % 8 == 0
    ensures (up - 8 - p) % 8 == 0 && (up - 8 + a - p) % 8 == 0
    ensures p + 8 < up ==> p + 16 <= up
  {
  }

  lemma UpTo(x: int, a: int)
    requires a > 0 && x % a != 0
    ensures var up := x + a - 1 - (x + a - 1) % a; x < up < x + a && up % a == 0 && (up + a) % a == 0
  {
    var q, r := x / a, x % a;
    assert x + a - 1 == (q + 1) * a + (r - 1) by { assert (q + 1) * a == q * a + a; }
    DivModUnique(x + a - 1, a, q + 1, r - 1);
    var up := x + a - 1 - (r - 1);
    assert up == (q + 1) * a + 0;
    DivModUnique(up, a, q + 1, 0);
    assert up + a == (q + 2) * a + 0 by { assert (q + 2) * a == (q + 1) * a + a; }
    DivModUnique(up + a, a, q + 2, 0);
  }

  /** A multiple of a is a multiple of eight when a is. */
  lemma MultipleOf(x: int, a: int)
    requires a > 0 && x % a == 0 && a % 8 == 0
    ensures x % 8 == 0
  {
    var q, h := x / a, a / 8;
    assert x == q * a;
    assert q * a == 8 * (q * h) by { assert a == 8 * h; EightTimes(q, h); }
  }

  lemma EightTimes(q: int, h: int)
    ensures q * (8 * h) == 8 * (q * h)
  {
  }
}
