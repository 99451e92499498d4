/** The C string routines of user programs, which work a word at a time where they can, against their
    byte-by-byte meaning. Memory is one array of bytes; words are aligned and little-endian. */
module LibcString {

  /** (uintptr_t)p & (sizeof(size_t)-1), and (uintptr_t)p % sizeof(size_t). */
  function Offset(p: nat): (r: nat) { p % 4 }

  lemma OffsetsStep(p: nat, q: nat, t: nat)
    requires Offset(p) == Offset(q)
    ensures Offset(p + t) == Offset(q + t)
  {
  }

  lemma NextWord(p: nat)
    ensures Offset(p + 4) == Offset(p)
  {
  }

  /** Memory ends with a whole word, so an aligned word that begins in it is in it. */
  lemma WholeWord(p: nat, end: nat)
    requires Offset(p) == 0 && Offset(end) == 0 && p < end
    ensures p + 4 <= end
  {
  }

  // --------------------------------------------------------------------------- words

  function Word(b0: bv8, b1: bv8, b2: bv8, b3: bv8): bv32 {
    (b0 as bv32) | (b1 as bv32 << 8) | (b2 as bv32 << 16) | (b3 as bv32 << 24)
  }

  function Byte0(w: bv32): bv8 { (w & 0xFF) as bv8 }
  function Byte1(w: bv32): bv8 { ((w >> 8) & 0xFF) as bv8 }
  function Byte2(w: bv32): bv8 { ((w >> 16) & 0xFF) as bv8 }
  function Byte3(w: bv32): bv8 { ((w >> 24) & 0xFF) as bv8 }

  lemma BytesOfWord(b0: bv8, b1: bv8, b2: bv8, b3: bv8)
    ensures var w := Word(b0, b1, b2, b3); Byte0(w) == b0 && Byte1(w) == b1 && Byte2(w) == b2 && Byte3(w) == b3
  {
  }

  /** ((size_t)-1/UCHAR_MAX) * c. */
  function Repeat(c: bv8): bv32 { 0x0101_0101 * (c as bv32) }

  lemma RepeatedByte(c: bv8)
    ensures var w := Repeat(c); Byte0(w) == c && Byte1(w) == c && Byte2(w) == c && Byte3(w) == c
  {
  }

  /** The zero-byte trick of strlen and strchrnul. */
  predicate HasZero(x: bv32) { ((x - 0x0101_0101) & !x & 0x8080_8080) != 0 }

  /** It finds a zero byte exactly when there is one. */
  lemma ZeroByte(w: bv32)
    ensures HasZero(w) <==> Byte0(w) == 0 || Byte1(w) == 0 || Byte2(w) == 0 || Byte3(w) == 0
  {
  }

  /** The word whose byte is zero where w has c. */
  function Against(w: bv32, k: bv32): bv32 { w ^ k }

  /** And a byte c, once the word is combined with c in every byte. */
  lemma SoughtByte(w: bv32, c: bv8)
    ensures HasZero(Against(w, Repeat(c))) <==> Byte0(w) == c || Byte1(w) == c || Byte2(w) == c || Byte3(w) == c
  {
    hide *;
    ZeroByte(Against(w, Repeat(c)));
    XorBytes(w, Repeat(c));
    RepeatedByte(c);
  }

  lemma XorBytes(x: bv32, y: bv32)
    ensures Byte0(Against(x, y)) == 0 <==> Byte0(x) == Byte0(y)
    ensures Byte1(Against(x, y)) == 0 <==> Byte1(x) == Byte1(y)
    ensures Byte2(Against(x, y)) == 0 <==> Byte2(x) == Byte2(y)
    ensures Byte3(Against(x, y)) == 0 <==> Byte3(x) == Byte3(y)
  {
  }

  function WordAt(m: seq<bv8>, i: nat): bv32
    requires i + 4 <= |m|
  {
    Word(m[i], m[i + 1], m[i + 2], m[i + 3])
  }

  lemma ZeroByteAt(m: seq<bv8>, i: nat)
    requires i + 4 <= |m|
    ensures HasZero(WordAt(m, i)) <==> m[i] == 0 || m[i + 1] == 0 || m[i + 2] == 0 || m[i + 3] == 0
  {
    hide Word, HasZero, Byte0, Byte1, Byte2, Byte3;
    ZeroByte(WordAt(m, i));
    BytesOfWord(m[i], m[i + 1], m[i + 2], m[i + 3]);
  }

  lemma SoughtByteAt(m: seq<bv8>, i: nat, c: bv8)
    requires i + 4 <= |m|
    ensures HasZero(Against(WordAt(m, i), Repeat(c))) <==> m[i] == c || m[i + 1] == c || m[i + 2] == c || m[i + 3] == c
  {
    hide Word, HasZero, Repeat, Against, Byte0, Byte1, Byte2, Byte3;
    SoughtByte(WordAt(m, i), c);
    BytesOfWord(m[i], m[i + 1], m[i + 2], m[i + 3]);
  }

  method LoadWord(a: array<bv8>, i: nat) returns (w: bv32)
    requires Offset(i) == 0 && i + 4 <= a.Length
    ensures w == WordAt(a[..], i)
  {
    w := Word(a[i], a[i + 1], a[i + 2], a[i + 3]);
  }

  method StoreWord(a: array<bv8>, i: nat, w: bv32)
    requires Offset(i) == 0 && i + 4 <= a.Length
    modifies a
    ensures a[i] == Byte0(w) && a[i + 1] == Byte1(w) && a[i + 2] == Byte2(w) && a[i + 3] == Byte3(w)
    ensures forall k | 0 <= k < a.Length && !(i <= k < i + 4) :: a[k] == old(a[k])
  {
    hide *;
    a[i], a[i + 1], a[i + 2], a[i + 3] := Byte0(w), Byte1(w), Byte2(w), Byte3(w);
  }

  // -------------------------------------------------------------------- blocks of memory

  /** Bytes lo up to hi of the block at src now stand in the block at dest, nothing else changed. */
  ghost predicate Copied(m: seq<bv8>, m': seq<bv8>, dest: nat, src: nat, lo: nat, hi: nat)
    requires dest + hi <= |m| && src + hi <= |m|
  {
    && |m'| == |m|
    && forall i {:trigger m'[i]} | 0 <= i < |m| ::
      m'[i] == if dest + lo <= i < dest + hi then m[src + (i - dest)] else m[i]
  }

  /** memset. */
  method Memset(a: array<bv8>, dest: nat, c: bv32, n: nat)
    requires dest + n <= a.Length
    modifies a
    ensures forall i | 0 <= i < a.Length :: a[i] == if dest <= i < dest + n then (c & 0xFF) as bv8 else old(a[i])
  {
    hide *;
    var b := (c & 0xFF) as bv8;
    var s: nat, k: nat := dest, n;
    while Offset(s) != 0 && k != 0
      invariant s + k == dest + n && dest <= s
      invariant forall i | 0 <= i < a.Length :: a[i] == if dest <= i < s then b else old(a[i])
      decreases k
    {
      a[s] := b;
      s, k := s + 1, k - 1;
    }
    if k != 0 {
      var w := Repeat(b);
      RepeatedByte(b);
      while k >= 4
        invariant s + k == dest + n && dest <= s && Offset(s) == 0
        invariant forall i | 0 <= i < a.Length :: a[i] == if dest <= i < s then b else old(a[i])
      {
        NextWord(s);
        StoreWord(a, s, w);
        s, k := s + 4, k - 4;
      }
      while k != 0
        invariant s + k == dest + n && dest <= s
        invariant forall i | 0 <= i < a.Length :: a[i] == if dest <= i < s then b else old(a[i])
      {
        a[s] := b;
        s, k := s + 1, k - 1;
      }
    }
  }

  method CopyWord(a: array<bv8>, d: nat, s: nat)
    requires Offset(d) == 0 && Offset(s) == 0 && d + 4 <= a.Length && s + 4 <= a.Length
    modifies a
    ensures Copied(old(a[..]), a[..], d, s, 0, 4)
  {
    hide Word, Byte0, Byte1, Byte2, Byte3;
    var w := LoadWord(a, s);
    BytesOfWord(a[s], a[s + 1], a[s + 2], a[s + 3]);
    StoreWord(a, d, w);
  }

  /** The next t bytes copied: what was copied before did not touch their source. */
  lemma CopiedOn(m: seq<bv8>, m1: seq<bv8>, m2: seq<bv8>, dest: nat, src: nat, j: nat, t: nat)
    requires dest + j + t <= |m| && src + j + t <= |m| && Copied(m, m1, dest, src, 0, j)
    requires Copied(m1, m2, dest + j, src + j, 0, t) && (dest <= src || src + j + t <= dest)
    ensures Copied(m, m2, dest, src, 0, j + t)
  {
    forall i | dest + j <= i < dest + j + t ensures m2[i] == m[src + (i - dest)] {
      assert m2[i] == m1[src + j + (i - (dest + j))] == m1[src + (i - dest)];
    }
  }

  /** The same towards the front. */
  lemma CopiedBack(m: seq<bv8>, m1: seq<bv8>, m2: seq<bv8>, dest: nat, src: nat, j: nat, n: nat, t: nat)
    requires dest + n <= |m| && src + n <= |m| && t <= j <= n && Copied(m, m1, dest, src, j, n)
    requires Copied(m1, m2, dest + j - t, src + j - t, 0, t) && src < dest
    ensures Copied(m, m2, dest, src, j - t, n)
  {
    forall i | dest + j - t <= i < dest + j ensures m2[i] == m[src + (i - dest)] {
      assert m2[i] == m1[src + j - t + (i - (dest + j - t))] == m1[src + (i - dest)];
    }
  }

  /** A forward copy by bytes and by words, after j bytes. */
  method ByteOn(a: array<bv8>, d: nat, s: nat, ghost m: seq<bv8>, ghost dest: nat, ghost src: nat, ghost j: nat)
    requires d == dest + j && s == src + j && d < a.Length && s < a.Length == |m|
    requires (dest <= src || src + j + 1 <= dest)
    requires Copied(m, a[..], dest, src, 0, j)
    modifies a
    ensures Copied(m, a[..], dest, src, 0, j + 1)
  {
    hide *;
    CopiedByte(a[..], d, s);
    CopiedOn(m, a[..], a[..][d := a[s]], dest, src, j, 1);
    a[d] := a[s];
  }

  method WordOn(a: array<bv8>, d: nat, s: nat, ghost m: seq<bv8>, ghost dest: nat, ghost src: nat, ghost j: nat)
    requires d == dest + j && s == src + j && d + 4 <= a.Length && s + 4 <= a.Length == |m|
    requires (dest <= src || src + j + 4 <= dest) && Offset(d) == 0 && Offset(s) == 0
    requires Copied(m, a[..], dest, src, 0, j)
    modifies a
    ensures Copied(m, a[..], dest, src, 0, j + 4)
  {
    hide *;
    ghost var m1 := a[..];
    CopyWord(a, d, s);
    CopiedOn(m, m1, a[..], dest, src, j, 4);
  }

  /** A backward copy by bytes and by words, when all behind is copied. */
  method ByteBack(a: array<bv8>, dest: nat, src: nat, k: nat, ghost m: seq<bv8>, ghost n: nat)
    requires src < dest && k < n && dest + n <= a.Length == |m| && Copied(m, a[..], dest, src, k + 1, n)
    modifies a
    ensures Copied(m, a[..], dest, src, k, n)
  {
    hide *;
    CopiedByte(a[..], dest + k, src + k);
    CopiedBack(m, a[..], a[..][dest + k := a[src + k]], dest, src, k + 1, n, 1);
    a[dest + k] := a[src + k];
  }

  method WordBack(a: array<bv8>, dest: nat, src: nat, k: nat, ghost m: seq<bv8>, ghost n: nat)
    requires src < dest && k + 4 <= n && dest + n <= a.Length == |m| && Offset(dest + k) == 0 && Offset(src + k) == 0
    requires Copied(m, a[..], dest, src, k + 4, n)
    modifies a
    ensures Copied(m, a[..], dest, src, k, n)
  {
    hide *;
    ghost var m1 := a[..];
    CopyWord(a, dest + k, src + k);
    CopiedBack(m, m1, a[..], dest, src, k + 4, n, 4);
  }

  lemma CopiedByte(m: seq<bv8>, d: nat, s: nat)
    requires d < |m| && s < |m|
    ensures Copied(m, m[d := m[s]], d, s, 0, 1)
  {
  }

  lemma CopiedNothing(m: seq<bv8>, dest: nat, src: nat, j: nat)
    requires dest + j <= |m| && src + j <= |m|
    ensures Copied(m, m, dest, src, j, j)
  {
  }

  lemma CopiedSelf(m: seq<bv8>, dest: nat, n: nat)
    requires dest + n <= |m|
    ensures Copied(m, m, dest, dest, 0, n)
  {
  }

  /** memcpy, for blocks that do not overlap. */
  method Memcpy(a: array<bv8>, dest: nat, src: nat, n: nat)
    requires dest + n <= a.Length && src + n <= a.Length && (dest + n <= src || src + n <= dest)
    modifies a
    ensures Copied(old(a[..]), a[..], dest, src, 0, n)
  {
    hide *;
    ghost var m := a[..];
    CopiedNothing(m, dest, src, 0);
    var d: nat, s: nat, k: nat := dest, src, n;
    if Offset(d) == Offset(s) {
      while Offset(d) != 0 && k != 0
        invariant d + k == dest + n && s + k == src + n && k <= n && Offset(d) == Offset(s)
        invariant Copied(m, a[..], dest, src, 0, n - k)
        decreases k
      {
        OffsetsStep(d, s, 1);
        ByteOn(a, d, s, m, dest, src, n - k);
        d, s, k := d + 1, s + 1, k - 1;
      }
      while k >= 4
        invariant d + k == dest + n && s + k == src + n && k <= n
        invariant k != 0 ==> Offset(d) == 0 && Offset(s) == 0
        invariant Copied(m, a[..], dest, src, 0, n - k)
      {
        NextWord(d);
        NextWord(s);
        WordOn(a, d, s, m, dest, src, n - k);
        d, s, k := d + 4, s + 4, k - 4;
      }
    }
    while k != 0
      invariant d + k == dest + n && s + k == src + n && k <= n
      invariant Copied(m, a[..], dest, src, 0, n - k)
    {
      ByteOn(a, d, s, m, dest, src, n - k);
      d, s, k := d + 1, s + 1, k - 1;
    }
  }

  /** memmove: whatever the overlap and alignment, a copy of what the source block was. */
  method Memmove(a: array<bv8>, dest: nat, src: nat, n: nat)
    requires dest + n <= a.Length && src + n <= a.Length
    modifies a
    ensures Copied(old(a[..]), a[..], dest, src, 0, n)
  {
    hide *;
    if dest == src {
      CopiedSelf(a[..], dest, n);
      return;
    }
    if src + n <= dest || dest + n <= src {
      Memcpy(a, dest, src, n);
      return;
    }
    if dest < src {
      MoveDown(a, dest, src, n);
    } else {
      MoveUp(a, dest, src, n);
    }
  }

  /** memmove to a lower address, from the front. */
  method MoveDown(a: array<bv8>, dest: nat, src: nat, n: nat)
    requires dest < src && src + n <= a.Length
    modifies a
    ensures Copied(old(a[..]), a[..], dest, src, 0, n)
  {
    hide *;
    ghost var m := a[..];
    CopiedNothing(m, dest, src, 0);
    var k: nat := n;
    if Offset(src) == Offset(dest) {
      k := MoveWordsDown(a, dest, src, n);
    }
    var d: nat, s: nat := dest + (n - k), src + (n - k);
    while k != 0
      invariant d + k == dest + n && s + k == src + n && k <= n
      invariant Copied(m, a[..], dest, src, 0, n - k)
    {
      ByteOn(a, d, s, m, dest, src, n - k);
      d, s, k := d + 1, s + 1, k - 1;
    }
  }

  /** Its part for blocks of the same alignment: whole words, after the bytes before the first; k bytes
      are left. */
  method MoveWordsDown(a: array<bv8>, dest: nat, src: nat, n: nat) returns (k: nat)
    requires dest < src && src + n <= a.Length && Offset(src) == Offset(dest)
    modifies a
    ensures k <= n && Copied(old(a[..]), a[..], dest, src, 0, n - k)
  {
    hide *;
    ghost var m := a[..];
    CopiedNothing(m, dest, src, 0);
    var d: nat, s: nat := dest, src;
    k := n;
    while Offset(d) != 0
      invariant d + k == dest + n && s + k == src + n && k <= n && Offset(d) == Offset(s)
      invariant Copied(m, a[..], dest, src, 0, n - k)
      decreases k
    {
      if k == 0 {
        return;
      }
      OffsetsStep(d, s, 1);
      ByteOn(a, d, s, m, dest, src, n - k);
      d, s, k := d + 1, s + 1, k - 1;
    }
    while k >= 4
      invariant d + k == dest + n && s + k == src + n && k <= n && Offset(d) == 0 && Offset(s) == 0
      invariant Copied(m, a[..], dest, src, 0, n - k)
    {
      NextWord(d);
      NextWord(s);
      WordOn(a, d, s, m, dest, src, n - k);
      d, s, k := d + 4, s + 4, k - 4;
    }
  }

  /** memmove to a higher address, from the back. */
  method MoveUp(a: array<bv8>, dest: nat, src: nat, n: nat)
    requires src < dest && dest + n <= a.Length
    modifies a
    ensures Copied(old(a[..]), a[..], dest, src, 0, n)
  {
    hide *;
    ghost var m := a[..];
    CopiedNothing(m, dest, src, n);
    var k: nat := n;
    if Offset(src) == Offset(dest) {
      while Offset(dest + k) != 0
        invariant k <= n && Copied(m, a[..], dest, src, k, n)
        decreases k
      {
        if k == 0 {
          return;
        }
        k := k - 1;
        ByteBack(a, dest, src, k, m, n);
      }
      OffsetsStep(src, dest, k);
      while k >= 4
        invariant k <= n && Offset(dest + k) == 0 && Offset(src + k) == 0 && Copied(m, a[..], dest, src, k, n)
      {
        k := k - 4;
        NextWord(dest + k);
        NextWord(src + k);
        WordBack(a, dest, src, k, m, n);
      }
    }
    while k != 0
      invariant k <= n && Copied(m, a[..], dest, src, k, n)
    {
      k := k - 1;
      ByteBack(a, dest, src, k, m, n);
    }
  }

  // ------------------------------------------------------------------------- strings

  ghost predicate Terminated(m: seq<bv8>, s: int) {
    exists i :: 0 <= s <= i < |m| && m[i] == 0
  }

  /** The string at s: the bytes up to the first zero. */
  ghost function Str(m: seq<bv8>, s: nat): seq<bv8>
    decreases |m| - s
  {
    if s >= |m| || m[s] == 0 then [] else [m[s]] + Str(m, s + 1)
  }

  lemma {:induction false} StrIs(m: seq<bv8>, s: nat, z: nat)
    requires s <= z < |m| && m[z] == 0 && forall i | s <= i < z :: m[i] != 0
    ensures Str(m, s) == m[s..z]
    decreases z - s
  {
    if s < z {
      StrIs(m, s + 1, z);
      assert m[s..z] == [m[s]] + m[s + 1..z];
    }
  }

  lemma {:induction false} StrEnd(m: seq<bv8>, s: nat)
    requires Terminated(m, s)
    ensures s + |Str(m, s)| < |m| && m[s + |Str(m, s)|] == 0 && Str(m, s) == m[s..s + |Str(m, s)|]
    ensures forall i | s <= i < s + |Str(m, s)| :: m[i] != 0
    decreases |m| - s
  {
    if m[s] != 0 {
      assert Terminated(m, s + 1);
      StrEnd(m, s + 1);
      assert m[s..s + |Str(m, s)|] == [m[s]] + m[s + 1..s + |Str(m, s)|];
    }
  }

  /** strlen. */
  method Strlen(a: array<bv8>, s: nat) returns (n: nat)
    requires Terminated(a[..], s) && Offset(a.Length) == 0
    ensures n == |Str(a[..], s)|
  {
    hide *;
    StrEnd(a[..], s);
    ghost var z := s + |Str(a[..], s)|;
    var p: nat := s;
    while Offset(p) != 0
      invariant s <= p <= z
      decreases z - p
    {
      if a[p] == 0 {
        return p - s;
      }
      p := p + 1;
    }
    WholeWord(p, a.Length);
    var w := LoadWord(a, p);
    ZeroByteAt(a[..], p);
    while !HasZero(w)
      invariant s <= p <= z && Offset(p) == 0 && p + 4 <= a.Length && w == WordAt(a[..], p)
      invariant HasZero(w) <==> a[p] == 0 || a[p + 1] == 0 || a[p + 2] == 0 || a[p + 3] == 0
      decreases z - p
    {
      NextWord(p);
      p := p + 4;
      WholeWord(p, a.Length);
      w := LoadWord(a, p);
      ZeroByteAt(a[..], p);
    }
    while a[p] != 0
      invariant s <= p <= z
      decreases z - p
    {
      p := p + 1;
    }
    n := p - s;
  }

  /** c is not among the bytes from s up to p. */
  ghost predicate Without(m: seq<bv8>, s: nat, p: nat, c: bv8) {
    s <= p <= |m| && forall i | s <= i < p :: m[i] != c
  }

  lemma WithoutNext(m: seq<bv8>, s: nat, p: nat, c: bv8)
    requires Without(m, s, p, c) && p < |m| && m[p] != c
    ensures Without(m, s, p + 1, c)
  {
  }

  lemma WithoutWord(m: seq<bv8>, s: nat, p: nat, c: bv8)
    requires Without(m, s, p, c) && p + 4 <= |m| && m[p] != c && m[p + 1] != c && m[p + 2] != c && m[p + 3] != c
    ensures Without(m, s, p + 4, c)
  {
  }

  /** p is the first c of the string at s, or else its end. */
  ghost predicate FirstOrEnd(m: seq<bv8>, s: nat, c: bv8, p: nat) {
    var x := Str(m, s);
    s <= p <= s + |x| && (p == s + |x| || x[p - s] == c) && forall i | 0 <= i < p - s :: x[i] != c
  }

  lemma MakeFirstOrEnd(m: seq<bv8>, s: nat, c: bv8, p: nat)
    requires Terminated(m, s) && Without(m, s, p, c) && p <= s + |Str(m, s)| && p < |m| && (m[p] == 0 || m[p] == c)
    ensures FirstOrEnd(m, s, c, p)
  {
    StrEnd(m, s);
  }

  lemma EndIsFirst(m: seq<bv8>, s: nat)
    requires Terminated(m, s)
    ensures FirstOrEnd(m, s, 0, s + |Str(m, s)|)
  {
    StrEnd(m, s);
  }

  lemma WithoutNothing(m: seq<bv8>, s: nat, c: bv8)
    requires s <= |m|
    ensures Without(m, s, s, c)
  {
  }

  /** The conversion of an int argument to unsigned char. */
  function LowByte(ch: bv32): bv8 { (ch & 0xFF) as bv8 }

  /** strchrnul: the first such character, or else the end of the string. */
  method Strchrnul(a: array<bv8>, s: nat, ch: bv32) returns (p: nat)
    requires Terminated(a[..], s) && Offset(a.Length) == 0
    ensures FirstOrEnd(a[..], s, LowByte(ch), p)
  {
    hide *;
    var c := LowByte(ch);
    StrEnd(a[..], s);
    ghost var z := s + |Str(a[..], s)|;
    if c == 0 {
      EndIsFirst(a[..], s);
      var n := Strlen(a, s);
      return s + n;
    }
    p := s;
    WithoutNothing(a[..], s, c);
    while Offset(p) != 0
      invariant s <= p <= z && Without(a[..], s, p, c)
      decreases z - p
    {
      if a[p] == 0 || a[p] == c {
        MakeFirstOrEnd(a[..], s, c, p);
        return;
      }
      WithoutNext(a[..], s, p, c);
      p := p + 1;
    }
    p := SkipWords(a, s, p, c);
    while a[p] != 0 && a[p] != c
      invariant s <= p <= z && Without(a[..], s, p, c)
      decreases z - p
    {
      WithoutNext(a[..], s, p, c);
      p := p + 1;
    }
    MakeFirstOrEnd(a[..], s, c, p);
  }

  /** The word loop of strchrnul. */
  method SkipWords(a: array<bv8>, s: nat, start: nat, c: bv8) returns (p: nat)
    requires Terminated(a[..], s) && Offset(a.Length) == 0 && Offset(start) == 0
    requires s <= start <= s + |Str(a[..], s)| && Without(a[..], s, start, c)
    ensures s <= p <= s + |Str(a[..], s)| && Without(a[..], s, p, c)
  {
    hide *;
    StrEnd(a[..], s);
    ghost var z := s + |Str(a[..], s)|;
    p := start;
    var k := Repeat(c);
    WholeWord(p, a.Length);
    var w := LoadWord(a, p);
    ZeroByteAt(a[..], p);
    SoughtByteAt(a[..], p, c);
    while !HasZero(w) && !HasZero(Against(w, k))
      invariant s <= p <= z && Offset(p) == 0 && p + 4 <= a.Length && Without(a[..], s, p, c)
      invariant HasZero(w) <==> a[p] == 0 || a[p + 1] == 0 || a[p + 2] == 0 || a[p + 3] == 0
      invariant HasZero(Against(w, k)) <==> a[p] == c || a[p + 1] == c || a[p + 2] == c || a[p + 3] == c
      decreases z - p
    {
      WithoutWord(a[..], s, p, c);
      NextWord(p);
      p := p + 4;
      WholeWord(p, a.Length);
      w := LoadWord(a, p);
      ZeroByteAt(a[..], p);
      SoughtByteAt(a[..], p, c);
    }
  }
}
