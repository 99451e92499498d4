/** The kernel's string routines that the archive parser and the file system use. A C string is its
    bytes without the terminating zero; memory is a sequence of bytes. */
module KernelString {

  type Byte = x: int | 0 <= x < 256

  predicate IsString(s: seq<Byte>) { forall i | 0 <= i < |s| :: s[i] != 0 }

  /** What the code reads at an index of a string: a byte, or the terminator behind the last. */
  function CharAt(s: seq<Byte>, i: nat): Byte
    requires i <= |s|
  {
    if i < |s| then s[i] else 0
  }

  // ---------------------------------------------------------------------- comparisons

  predicate Prefix(p: seq<Byte>, s: seq<Byte>) { |p| <= |s| && s[..|p|] == p }

  method StartsWith(self: seq<Byte>, prefix: seq<Byte>) returns (r: bool)
    requires IsString(self) && IsString(prefix)
    ensures r <==> Prefix(prefix, self)
  {
    var i := 0;
    while i < |prefix|
      invariant 0 <= i <= |prefix| && i <= |self| && self[..i] == prefix[..i]
    {
      if CharAt(self, i) != prefix[i] {
        if |prefix| <= |self| { assert self[..|prefix|][i] != prefix[i]; }
        return false;
      }
      assert self[..i + 1] == self[..i] + [self[i]] && prefix[..i + 1] == prefix[..i] + [prefix[i]];
      i := i + 1;
    }
    assert prefix[..|prefix|] == prefix;
    r := true;
  }

  predicate Suffix(t: seq<Byte>, s: seq<Byte>) { |t| <= |s| && s[|s| - |t|..] == t }

  /** String_endsWith, which goes back from the end by the length of the suffix, if need be into the
      memory in front of the string. */
  method EndsWith(before: seq<Byte>, self: seq<Byte>, suffix: seq<Byte>) returns (r: bool)
    requires |suffix| <= |before| + |self|
    ensures r <==> Suffix(suffix, before + self)
    ensures |suffix| <= |self| ==> (r <==> Suffix(suffix, self))
  {
    SuffixOfString(before, self, suffix);
    var start := |self| - |suffix|;
    var i, y := start, 0;
    while i < |self|
      invariant 0 <= y <= |suffix| && i == start + y
      invariant forall k | 0 <= k < y :: (before + self)[|before| + start + k] == suffix[k]
    {
      var c := if i >= 0 then self[i] else before[|before| + i];
      assert c == (before + self)[|before| + i];
      if c != suffix[y] {
        assert (before + self)[|before| + start..][y] != suffix[y];
        return false;
      }
      i, y := i + 1, y + 1;
    }
    r := true;
  }

  /** What is in front of the string matters exactly when the suffix is longer and ends in it. */
  lemma SuffixOfString(before: seq<Byte>, self: seq<Byte>, suffix: seq<Byte>)
    requires |suffix| <= |before| + |self|
    ensures |suffix| <= |self| ==> (Suffix(suffix, before + self) <==> Suffix(suffix, self))
    ensures |suffix| > |self| ==>
              && !Suffix(suffix, self)
              && (Suffix(suffix, before + self) <==>
                    Suffix(self, suffix) && Suffix(suffix[..|suffix| - |self|], before))
  {
    var m := before + self;
    var t := m[|m| - |suffix|..];
    if |suffix| <= |self| {
      assert t == self[|self| - |suffix|..];
    } else {
      var n := |suffix| - |self|;
      assert t == before[|before| - n..] + self;
      assert suffix == suffix[..n] + suffix[n..];
      assert t[..n] == before[|before| - n..] && t[n..] == self;
    }
  }

  /** String_compare: zero exactly for equal strings. */
  method Compare(left: seq<Byte>, right: seq<Byte>) returns (r: int)
    requires IsString(left) && IsString(right)
    ensures r == 0 <==> left == right
  {
    var i := 0;
    while CharAt(left, i) == CharAt(right, i) && CharAt(left, i) != 0
      invariant 0 <= i <= |left| && i <= |right| && left[..i] == right[..i]
      decreases |left| - i
    {
      assert left[..i + 1] == left[..i] + [left[i]] && right[..i + 1] == right[..i] + [right[i]];
      i := i + 1;
    }
    if CharAt(left, i) == CharAt(right, i) {
      assert i == |left| == |right| && left[..i] == left && right[..i] == right;
    } else if i < |left| && i < |right| {
      assert left[i] != right[i];
    }
    r := CharAt(left, i) - CharAt(right, i);
  }

  function Count(s: seq<Byte>, c: Byte): nat {
    if s == [] then 0 else Count(s[..|s| - 1], c) + (if s[|s| - 1] == c then 1 else 0)
  }

  lemma {:induction false} CountIs(s: seq<Byte>, c: Byte)
    ensures Count(s, c) == multiset(s)[c]
  {
    if s != [] {
      CountIs(s[..|s| - 1], c);
      assert s == s[..|s| - 1] + [s[|s| - 1]];
    }
  }

  lemma {:induction false} CountJoin(s: seq<Byte>, t: seq<Byte>, c: Byte)
    ensures Count(s + t, c) == Count(s, c) + Count(t, c)
  {
    if t == [] {
      assert s + t == s;
    } else {
      assert (s + t)[..|s + t| - 1] == s + t[..|t| - 1];
      CountJoin(s, t[..|t| - 1], c);
    }
  }

  /** String_countChar, whose loop moves either the pointer or the index. */
  method CountChar(str: seq<Byte>, c: Byte) returns (i: nat)
    requires IsString(str) && c != 0
    ensures i == Count(str, c) == multiset(str)[c]
  {
    CountIs(str, c);
    var s := 0;
    i := 0;
    while CharAt(str, s + i) != 0
      invariant 0 <= s && s + i <= |str| && i == Count(str[..s + i], c)
      decreases |str| - (s + i)
    {
      assert str[..s + i + 1][..s + i] == str[..s + i];
      if str[s + i] == c {
        i := i + 1;
      } else {
        s := s + 1;
      }
    }
    assert str[..s + i] == str;
  }

  // --------------------------------------------------------------------------- numbers

  predicate Digit(c: Byte, base: nat) { 48 <= c <= 57 || (base > 10 && 97 <= c <= 102) }

  function DigitValue(c: Byte): nat
    requires c >= 48 && (c > 57 ==> c >= 97)
  {
    if c > 57 then c - 97 + 10 else c - 48
  }

  /** The number that digits stand for, most significant first. */
  function Number(s: seq<Byte>, base: nat): nat
    requires forall i | 0 <= i < |s| :: Digit(s[i], base)
  {
    if s == [] then 0
    else
      assert Digit(s[|s| - 1], base);
      Number(s[..|s| - 1], base) * base + DigitValue(s[|s| - 1])
  }

  function Power(base: nat, n: nat): nat { if n == 0 then 1 else base * Power(base, n - 1) }

  /** What single digits stand for. */
  lemma NumberOfOne(d: nat, base: nat)
    requires d < 10 || (base > 10 && d < 16)
    ensures Number([if d < 10 then 48 + d else 87 + d], base) == d
  {
    assert [if d < 10 then 48 + d else 87 + d][..0] == [];
  }

  lemma NumberOfMore(s: seq<Byte>, c: Byte, base: nat)
    requires (forall i | 0 <= i < |s| :: Digit(s[i], base)) && Digit(c, base)
    ensures Number(s + [c], base) == Number(s, base) * base + Number([c], base)
  {
    assert (s + [c])[..|s|] == s;
    assert [c][..0] == [];
  }

  /** Digits in front of others count as many powers of the base more. */
  lemma {:induction false} NumberJoin(s: seq<Byte>, t: seq<Byte>, base: nat)
    requires (forall i | 0 <= i < |s| :: Digit(s[i], base)) && forall i | 0 <= i < |t| :: Digit(t[i], base)
    ensures forall i | 0 <= i < |s + t| :: Digit((s + t)[i], base)
    ensures Number(s + t, base) == Number(s, base) * Power(base, |t|) + Number(t, base)
  {
    if t == [] {
      assert s + t == s;
    } else {
      var n := |t| - 1;
      var u, c := t[..n], t[n];
      assert t == u + [c] && s + t == s + u + [c] && Digit(c, base);
      assert Power(base, n + 1) == base * Power(base, n);
      hide *;
      NumberJoin(s, u, base);
      NumberOfMore(u, c, base);
      NumberOfMore(s + u, c, base);
      Distribute(Number(s, base), Power(base, n), base, Number(u, base));
    }
  }

  lemma Distribute(x: nat, y: nat, base: nat, z: nat)
    ensures (x * y + z) * base == x * (base * y) + z * base
  {
    assert x * y * base == x * (base * y);
  }

  /** At p stand n digits and then none. */
  ghost predicate DigitsAt(m: seq<Byte>, p: nat, n: nat, base: nat) {
    p + n < |m| && (forall i | p <= i < p + n :: Digit(m[i], base)) && !Digit(m[p + n], base)
  }

  lemma HornerStep(n: nat, base: nat, d: nat)
    ensures (n % 0x1_0000_0000 * base + d) % 0x1_0000_0000 == (n * base + d) % 0x1_0000_0000
  {
    var q, r := n / 0x1_0000_0000, n % 0x1_0000_0000;
    var k := q * base;
    assert n * base == (q * 0x1_0000_0000 + r) * base == k * 0x1_0000_0000 + r * base;
  }

  /** String_stringToInt: the number the leading digits stand for, modulo the word. */
  method StringToInt(m: seq<Byte>, str: nat, base: nat, ghost n: nat) returns (num: nat)
    requires DigitsAt(m, str, n, base)
    ensures num == Number(m[str..str + n], base) % 0x1_0000_0000
  {
    var ip := str;
    num := 0;
    assert m[str..str] == [];
    while Digit(m[ip], base)
      invariant str <= ip <= str + n && num == Number(m[str..ip], base) % 0x1_0000_0000
      decreases str + n - ip
    {
      var offset := DigitValue(m[ip]);
      assert m[str..ip + 1][..ip - str] == m[str..ip];
      HornerStep(Number(m[str..ip], base), base, offset);
      num := (num * base + offset) % 0x1_0000_0000;
      ip := ip + 1;
    }
  }
}
