/** strspn, strcspn and strtok: sets of characters as bits of eight words, and the fields of a string
    cut out one call at a time. */
module LibcTokens {
  import opened LibcString

  // ------------------------------------------------------------------ a set of characters

  /** The word and the bit of a character: (size_t)b / (8*sizeof *a), 1 << (size_t)b % (8*sizeof *a). */
  function Index(b: bv8): (i: nat)
    ensures i < 8
  {
    (b / 32) as nat
  }

  function Bit(b: bv8): bv32 { 1 << (b % 32) }

  lemma SameIndex(b: bv8, c: bv8, x: bv32)
    requires Index(b) == Index(c)
    ensures (x | Bit(c)) & Bit(b) != 0 <==> b == c || x & Bit(b) != 0
  {
    assert b / 32 == c / 32;
    hide Index;
  }

  predicate InWord(x: bv32, b: bv8) { x & Bit(b) != 0 }

  function WithBit(x: bv32, c: bv8): bv32 { x | Bit(c) }

  predicate Member(byteset: seq<bv32>, b: bv8)
    requires |byteset| == 8
  {
    InWord(byteset[Index(b)], b)
  }

  /** Setting the bit of c adds c to the set, and nothing else. */
  lemma AddMember(byteset: seq<bv32>, c: bv8, b: bv8)
    requires |byteset| == 8
    ensures Member(byteset[Index(c) := WithBit(byteset[Index(c)], c)], b) <==> b == c || Member(byteset, b)
  {
    if Index(b) == Index(c) { SameIndex(b, c, byteset[Index(c)]); }
    hide Index, Bit, InWord, WithBit;
  }

  ghost predicate Holds(byteset: seq<bv32>, x: seq<bv8>) {
    |byteset| == 8 && forall b: bv8 :: Member(byteset, b) <==> b in x
  }

  lemma HoldsNothing(byteset: seq<bv32>)
    requires |byteset| == 8 && forall i | 0 <= i < 8 :: byteset[i] == 0
    ensures Holds(byteset, [])
  {
    forall b: bv8 ensures !Member(byteset, b) {
      ZeroAnd(Bit(b));
      hide Bit;
    }
  }

  lemma ZeroAnd(x: bv32)
    ensures 0 & x == 0
  {
  }

  lemma HoldsMore(byteset: seq<bv32>, x: seq<bv8>, c: bv8)
    requires Holds(byteset, x)
    ensures Holds(byteset[Index(c) := WithBit(byteset[Index(c)], c)], x + [c])
  {
    forall b: bv8
      ensures Member(byteset[Index(c) := WithBit(byteset[Index(c)], c)], b) <==> b in x + [c]
    {
      AddMember(byteset, c, b);
      hide Member, Index, Bit;
    }
  }

  lemma MemberIs(byteset: seq<bv32>, x: seq<bv8>, b: bv8)
    requires Holds(byteset, x)
    ensures |byteset| == 8 && (Member(byteset, b) <==> b in x)
  {
  }

  /** The characters of the string at c, put into an empty set. */
  method Fill(a: array<bv8>, byteset: array<bv32>, c: nat)
    requires Terminated(a[..], c) && Holds(byteset[..], [])
    modifies byteset
    ensures Holds(byteset[..], Str(a[..], c))
  {
    hide *;
    StrEnd(a[..], c);
    ghost var x := Str(a[..], c);
    ghost var z := c + |x|;
    MemberIs(byteset[..], [], 0);
    assert a[c..c] == [];
    var p: nat := c;
    while a[p] != 0
      invariant c <= p <= z && byteset.Length == 8 && Holds(byteset[..], a[c..p])
      decreases z - p
    {
      HoldsMore(byteset[..], a[c..p], a[p]);
      assert a[c..p + 1] == a[c..p] + [a[p]];
      byteset[Index(a[p])] := WithBit(byteset[Index(a[p])], a[p]);
      p := p + 1;
    }
  }

  // ----------------------------------------------------------------------- strspn, strcspn

  /** The first n characters of x are in the set, the next is not. */
  ghost predicate Spans(x: seq<bv8>, accept: seq<bv8>, n: int) {
    0 <= n <= |x| && (forall i | 0 <= i < n :: x[i] in accept) && (n < |x| ==> x[n] !in accept)
  }

  /** The first n characters of x are not in the set, the next is. */
  ghost predicate Avoids(x: seq<bv8>, reject: seq<bv8>, n: int) {
    0 <= n <= |x| && (forall i | 0 <= i < n :: x[i] !in reject) && (n < |x| ==> x[n] in reject)
  }

  /** That determines n. */
  lemma OneSpan(x: seq<bv8>, y: seq<bv8>, n: int, k: int)
    requires (Spans(x, y, n) && Spans(x, y, k)) || (Avoids(x, y, n) && Avoids(x, y, k))
    ensures n == k
  {
  }

  method Strspn(a: array<bv8>, s: nat, c: nat) returns (n: nat)
    requires Terminated(a[..], s) && Terminated(a[..], c)
    ensures Spans(Str(a[..], s), Str(a[..], c), n)
  {
    hide *;
    StrEnd(a[..], s);
    StrEnd(a[..], c);
    ghost var x, y := Str(a[..], s), Str(a[..], c);
    ghost var z := s + |x|;
    if a[c] == 0 {
      SpansEmpty(x, y);
      return 0;
    }
    SpanStart(x, y);
    var p: nat := s;
    if a[c + 1] == 0 {
      while a[p] == a[c]
        invariant s <= p <= z && Spanning(x, y, p - s)
        decreases z - p
      {
        SpanNext(x, y, p - s);
        p := p + 1;
      }
      SpanEnd(x, y, p - s);
      return p - s;
    }
    var byteset := new bv32[8](_ => 0);
    HoldsNothing(byteset[..]);
    Fill(a, byteset, c);
    MemberIs(byteset[..], y, a[p]);
    while a[p] != 0 && Member(byteset[..], a[p])
      invariant s <= p <= z && Spanning(x, y, p - s) && Holds(byteset[..], y) && |byteset[..]| == 8 &&
                (Member(byteset[..], a[p]) <==> a[p] in y)
      decreases z - p
    {
      SpanNext(x, y, p - s);
      p := p + 1;
      MemberIs(byteset[..], y, a[p]);
    }
    SpanEnd(x, y, p - s);
    n := p - s;
  }

  method Strcspn(a: array<bv8>, s: nat, c: nat) returns (n: nat)
    requires Terminated(a[..], s) && Terminated(a[..], c) && Offset(a.Length) == 0
    ensures Avoids(Str(a[..], s), Str(a[..], c), n)
  {
    hide *;
    StrEnd(a[..], s);
    StrEnd(a[..], c);
    ghost var x, y := Str(a[..], s), Str(a[..], c);
    ghost var z := s + |x|;
    if a[c] == 0 || a[c + 1] == 0 {
      LowOfExtended(a[c]);
      var q := Strchrnul(a, s, SignExtend(a[c]));
      FirstAvoids(a[..], s, c, q);
      return q - s;
    }
    AvoidStart(x, y);
    var byteset := new bv32[8](_ => 0);
    HoldsNothing(byteset[..]);
    Fill(a, byteset, c);
    var p: nat := s;
    MemberIs(byteset[..], y, a[p]);
    while a[p] != 0 && !Member(byteset[..], a[p])
      invariant s <= p <= z && Avoiding(x, y, p - s) && Holds(byteset[..], y) && |byteset[..]| == 8 &&
                (Member(byteset[..], a[p]) <==> a[p] in y)
      decreases z - p
    {
      AvoidNext(x, y, p - s);
      p := p + 1;
      MemberIs(byteset[..], y, a[p]);
    }
    AvoidEnd(x, y, p - s);
    n := p - s;
  }

  /** A char argument becomes an int. */
  function SignExtend(b: bv8): bv32 { if b & 0x80 != 0 then (b as bv32) | 0xFFFF_FF00 else b as bv32 }

  lemma LowOfExtended(b: bv8)
    ensures LowByte(SignExtend(b)) == b
  {
  }

  lemma FirstAvoids(m: seq<bv8>, s: nat, c: nat, p: nat)
    requires Terminated(m, s) && Terminated(m, c) && (m[c] == 0 || m[c + 1] == 0) && FirstOrEnd(m, s, m[c], p)
    ensures p >= s && Avoids(Str(m, s), Str(m, c), p - s)
  {
    StrEnd(m, s);
    StrEnd(m, c);
    if m[c] != 0 { StrIs(m, c, c + 1); }
  }

  ghost predicate Spanning(x: seq<bv8>, y: seq<bv8>, n: int) { 0 <= n <= |x| && forall i | 0 <= i < n :: x[i] in y }

  lemma SpansEmpty(x: seq<bv8>, y: seq<bv8>)
    requires y == []
    ensures Spans(x, y, 0)
  {
  }

  lemma SpanStart(x: seq<bv8>, y: seq<bv8>)
    ensures Spanning(x, y, 0)
  {
  }

  lemma SpanNext(x: seq<bv8>, y: seq<bv8>, n: int)
    requires Spanning(x, y, n) && n < |x| && x[n] in y
    ensures Spanning(x, y, n + 1)
  {
  }

  lemma SpanEnd(x: seq<bv8>, y: seq<bv8>, n: int)
    requires Spanning(x, y, n) && (n < |x| ==> x[n] !in y)
    ensures Spans(x, y, n)
  {
  }

  ghost predicate Avoiding(x: seq<bv8>, y: seq<bv8>, n: int) { 0 <= n <= |x| && forall i | 0 <= i < n :: x[i] !in y }

  lemma AvoidStart(x: seq<bv8>, y: seq<bv8>)
    ensures Avoiding(x, y, 0)
  {
  }

  lemma AvoidNext(x: seq<bv8>, y: seq<bv8>, n: int)
    requires Avoiding(x, y, n) && n < |x| && x[n] !in y
    ensures Avoiding(x, y, n + 1)
  {
  }

  lemma AvoidEnd(x: seq<bv8>, y: seq<bv8>, n: int)
    requires Avoiding(x, y, n) && (n < |x| ==> x[n] in y)
    ensures Avoids(x, y, n)
  {
  }

  // ------------------------------------------------------------------------------ strtok

  /** How many characters at the front of x are in y, and how many are not. */
  function Skip(x: seq<bv8>, y: seq<bv8>): (k: nat)
    ensures Spans(x, y, k)
  {
    if x == [] || x[0] !in y then 0 else 1 + Skip(x[1..], y)
  }

  function Until(x: seq<bv8>, y: seq<bv8>): (k: nat)
    ensures Avoids(x, y, k)
  {
    if x == [] || x[0] in y then 0 else 1 + Until(x[1..], y)
  }

  /** The fields of a string: what stands between separators. */
  function Tokens(x: seq<bv8>, seps: seq<bv8>): seq<seq<bv8>>
    decreases |x|
  {
    var y := x[Skip(x, seps)..];
    var n := Until(y, seps);
    if y == [] then [] else if n == |y| then [y] else [y[..n]] + Tokens(y[n + 1..], seps)
  }

  function Plain(x: seq<bv8>, seps: seq<bv8>): seq<bv8> {
    if x == [] then [] else (if x[0] in seps then [] else [x[0]]) + Plain(x[1..], seps)
  }

  function Flat(ts: seq<seq<bv8>>): seq<bv8> {
    if ts == [] then [] else ts[0] + Flat(ts[1..])
  }

  lemma {:induction false} PlainJoin(x: seq<bv8>, y: seq<bv8>, seps: seq<bv8>)
    ensures Plain(x + y, seps) == Plain(x, seps) + Plain(y, seps)
  {
    if x == [] {
      assert x + y == y;
    } else {
      assert (x + y)[1..] == x[1..] + y;
      PlainJoin(x[1..], y, seps);
    }
  }

  lemma {:induction false} PlainOf(x: seq<bv8>, seps: seq<bv8>)
    ensures (forall i | 0 <= i < |x| :: x[i] in seps) ==> Plain(x, seps) == []
    ensures (forall i | 0 <= i < |x| :: x[i] !in seps) ==> Plain(x, seps) == x
  {
    if x != [] {
      PlainOf(x[1..], seps);
      assert x == [x[0]] + x[1..];
    }
  }

  /** One token off the front, wherever its ends were found. */
  lemma FrontToken(x: seq<bv8>, seps: seq<bv8>, k: nat, n: nat)
    requires Spans(x, seps, k) && k < |x| && Avoids(x[k..], seps, n)
    ensures n > 0 && Tokens(x, seps) == [x[k..][..n]] + (if n == |x| - k then [] else Tokens(x[k..][n + 1..], seps))
  {
    OneSpan(x, seps, k, Skip(x, seps));
    OneSpan(x[k..], seps, n, Until(x[k..], seps));
    hide Skip, Until;
    if n == |x| - k { assert x[k..][..n] == x[k..]; }
  }

  lemma PlainSkip(x: seq<bv8>, seps: seq<bv8>, k: nat)
    requires Spans(x, seps, k)
    ensures Plain(x, seps) == Plain(x[k..], seps)
  {
    assert x == x[..k] + x[k..];
    PlainJoin(x[..k], x[k..], seps);
    PlainOf(x[..k], seps);
    hide Plain;
  }

  lemma PlainToken(y: seq<bv8>, seps: seq<bv8>, n: nat)
    requires Avoids(y, seps, n)
    ensures Plain(y, seps) == y[..n] + (if n == |y| then [] else Plain(y[n + 1..], seps))
  {
    assert y == y[..n] + y[n..];
    PlainJoin(y[..n], y[n..], seps);
    PlainOf(y[..n], seps);
    if n < |y| { assert y[n..][1..] == y[n + 1..]; }
  }

  lemma FlatFront(t: seq<bv8>, ts: seq<seq<bv8>>)
    ensures Flat([t] + ts) == t + Flat(ts)
  {
    assert ([t] + ts)[1..] == ts;
  }

  ghost predicate IsToken(t: seq<bv8>, seps: seq<bv8>) {
    t != [] && forall i | 0 <= i < |t| :: t[i] !in seps
  }

  /** The first token, and what is left of the string behind the separator that ends it. */
  lemma SplitFirst(x: seq<bv8>, seps: seq<bv8>) returns (t: seq<bv8>, z: seq<bv8>)
    ensures Tokens(x, seps) == [] ==> Plain(x, seps) == []
    ensures Tokens(x, seps) != [] ==>
              && IsToken(t, seps) && |z| < |x|
              && Tokens(x, seps) == [t] + Tokens(z, seps) && Plain(x, seps) == t + Plain(z, seps)
  {
    var k := Skip(x, seps);
    var y := x[k..];
    PlainSkip(x, seps, k);
    NoTokens([], seps, 0);
    PlainOf([], seps);
    if y == [] {
      NoTokens(x, seps, k);
      t, z := [], [];
    } else {
      var n := Until(y, seps);
      PlainToken(y, seps, n);
      FrontToken(x, seps, k, n);
      t, z := y[..n], if n == |y| then [] else y[n + 1..];
    }
  }

  /** The tokens, one after another, are the string without its separators; none is empty. */
  lemma {:induction false} TokensFlat(x: seq<bv8>, seps: seq<bv8>)
    ensures Flat(Tokens(x, seps)) == Plain(x, seps)
    ensures forall t | t in Tokens(x, seps) :: IsToken(t, seps)
    decreases |x|
  {
    assert Flat([]) == [];
    hide *;
    var t, z := SplitFirst(x, seps);
    if Tokens(x, seps) != [] {
      TokensFlat(z, seps);
      OneMoreToken(t, Tokens(z, seps), Plain(z, seps), seps);
    }
  }

  /** Separators in front make no tokens. */
  lemma TokensBehind(x: seq<bv8>, seps: seq<bv8>, k: nat)
    requires k <= |x| && forall i | 0 <= i < k :: x[i] in seps
    ensures Tokens(x, seps) == Tokens(x[k..], seps)
  {
    hide *;
    var l := Skip(x, seps);
    SpanLater(x, seps, k, l);
    if l == |x| {
      NoTokens(x, seps, l);
      NoTokens(x[k..], seps, l - k);
    } else {
      var n := Until(x[l..], seps);
      assert x[k..][l - k..] == x[l..];
      FrontToken(x, seps, l, n);
      FrontToken(x[k..], seps, l - k, n);
    }
  }

  lemma SpanLater(x: seq<bv8>, seps: seq<bv8>, k: nat, l: nat)
    requires k <= |x| && (forall i | 0 <= i < k :: x[i] in seps) && Spans(x, seps, l)
    ensures k <= l <= |x| && Spans(x[k..], seps, l - k)
  {
  }

  /** A separator parts the tokens in front of it from those behind it; without one, a string that is not
      empty is a token: so every field is as long as can be. */
  lemma {:induction false} TokensParted(x: seq<bv8>, sep: bv8, y: seq<bv8>, seps: seq<bv8>)
    requires sep in seps
    ensures Tokens(x + [sep] + y, seps) == Tokens(x, seps) + Tokens(y, seps)
    decreases |x|
  {
    hide *;
    var z := x + [sep] + y;
    var k := Skip(x, seps);
    SpanBefore(x, sep, y, seps, k);
    if k == |x| {
      NoTokens(x, seps, k);
      TokensBehind(z, seps, k + 1);
      assert z[k + 1..] == y;
    } else {
      var n := Until(x[k..], seps);
      AvoidBefore(x[k..], sep, y, seps, n);
      assert z[k..] == x[k..] + [sep] + y;
      FrontToken(x, seps, k, n);
      FrontToken(z, seps, k, n);
      assert z[k..][..n] == x[k..][..n];
      if n == |x| - k {
        assert z[k..][n + 1..] == y;
      } else {
        var rest := x[k..][n + 1..];
        assert z[k..][n + 1..] == rest + [sep] + y;
        TokensParted(rest, sep, y, seps);
      }
    }
  }

  lemma SpanBefore(x: seq<bv8>, sep: bv8, y: seq<bv8>, seps: seq<bv8>, k: nat)
    requires sep in seps && Spans(x, seps, k)
    ensures k <= |x| && if k < |x| then Spans(x + [sep] + y, seps, k)
                       else forall i | 0 <= i < k + 1 :: (x + [sep] + y)[i] in seps
  {
  }

  lemma AvoidBefore(x: seq<bv8>, sep: bv8, y: seq<bv8>, seps: seq<bv8>, n: nat)
    requires sep in seps && Avoids(x, seps, n)
    ensures n <= |x| && Avoids(x + [sep] + y, seps, n)
  {
  }

  lemma OneToken(x: seq<bv8>, seps: seq<bv8>)
    requires IsToken(x, seps)
    ensures Tokens(x, seps) == [x]
  {
    FrontToken(x, seps, 0, |x|);
    assert x[0..] == x && x[..|x|] == x;
  }

  lemma OneMoreToken(t: seq<bv8>, rest: seq<seq<bv8>>, plain: seq<bv8>, seps: seq<bv8>)
    requires IsToken(t, seps) && Flat(rest) == plain && forall u | u in rest :: IsToken(u, seps)
    ensures Flat([t] + rest) == t + plain && forall u | u in [t] + rest :: IsToken(u, seps)
  {
    FlatFront(t, rest);
    hide *;
  }

  /** A char pointer. */
  datatype Pointer = Null | At(addr: nat)

  /** The tokens that calls with a null string have still to give. */
  ghost function Rest(m: seq<bv8>, p: Pointer, seps: seq<bv8>): seq<seq<bv8>> {
    match p
    case Null => []
    case At(i) => Tokens(Str(m, i), seps)
  }

  ghost predicate Ended(m: seq<bv8>, p: Pointer) { p.At? ==> Terminated(m, p.addr) }

  /** Between m and m' at most one byte of the string at p became zero. */
  ghost predicate OnlyWithin(m: seq<bv8>, m': seq<bv8>, p: nat) {
    |m'| == |m| && forall i | 0 <= i < |m| && !(p <= i < p + |Str(m, p)|) :: m'[i] == m[i]
  }

  lemma StrSuffix(m: seq<bv8>, s: nat, k: nat)
    requires Terminated(m, s) && k <= |Str(m, s)|
    ensures Terminated(m, s + k) && Str(m, s + k) == Str(m, s)[k..]
  {
    StrEnd(m, s);
    StrIs(m, s + k, s + |Str(m, s)|);
  }

  /** A string that ends before a token. */
  lemma NoTokens(x: seq<bv8>, seps: seq<bv8>, k: nat)
    requires Spans(x, seps, k) && k == |x|
    ensures Tokens(x, seps) == []
  {
    OneSpan(x, seps, k, Skip(x, seps));
  }

  /** A string cut in two by a zero. */
  lemma CutString(m: seq<bv8>, t: nat, n: nat)
    requires Terminated(m, t) && n < |Str(m, t)|
    ensures t + n + 1 < |m| && m[t + n] != 0
    ensures var m' := m[t + n := 0];
            && Terminated(m', t) && Str(m', t) == Str(m, t)[..n]
            && Terminated(m', t + n + 1) && Str(m', t + n + 1) == Str(m, t)[n + 1..]
  {
    StrEnd(m, t);
    var m', z := m[t + n := 0], t + |Str(m, t)|;
    assert m'[z] == 0 && m'[t + n] == 0;
    StrIs(m', t, t + n);
    StrIs(m', t + n + 1, z);
    assert m'[t..t + n] == m[t..z][..n];
    assert m'[t + n + 1..z] == m[t..z][n + 1..];
  }

  /** The string cut at the end of its first token. */
  lemma FirstToken(m: seq<bv8>, s: nat, seps: seq<bv8>, k: nat, n: nat)
    requires Terminated(m, s) && Spans(Str(m, s), seps, k) && k < |Str(m, s)| && Avoids(Str(m, s + k), seps, n)
    ensures Terminated(m, s + k) && s + k + n < |m| && Str(m, s + k) == Str(m, s)[k..] && n <= |Str(m, s + k)|
    ensures m[s + k + n] != 0 <==> n < |Str(m, s + k)|
    ensures var m' := if m[s + k + n] != 0 then m[s + k + n := 0] else m;
            var p := if m[s + k + n] != 0 then At(s + k + n + 1) else Null;
            && Tokens(Str(m, s), seps) == [Str(m', s + k)] + Rest(m', p, seps)
            && Ended(m', p) && OnlyWithin(m, m', s) && Terminated(m', s + k)
  {
    hide *;
    StrSuffix(m, s, k);
    StrEnd(m, s + k);
    AvoidsWithin(Str(m, s + k), seps, n);
    FrontToken(Str(m, s), seps, k, n);
    RestIs(m, seps);
    WithinItself(m, s);
    if n < |Str(m, s + k)| {
      CutString(m, s + k, n);
      RestIs(m[s + k + n := 0], seps);
      CutWithin(m, s, k + n);
    } else {
      assert Str(m, s)[k..][..n] == Str(m, s + k);
    }
  }

  lemma CutWithin(m: seq<bv8>, s: nat, i: nat)
    requires i < |Str(m, s)| && s + i < |m|
    ensures OnlyWithin(m, m[s + i := 0], s)
  {
  }

  lemma AvoidsWithin(x: seq<bv8>, y: seq<bv8>, n: int)
    requires Avoids(x, y, n)
    ensures 0 <= n <= |x|
  {
  }

  class Tokenizer {
    /** The static p of strtok. */
    var p: Pointer

    constructor ()
      ensures p == Null
    {
      p := Null;
    }

    /** strtok: the next token as a string of its own, and the rest kept for the next call. */
    method Strtok(a: array<bv8>, str: Pointer, sep: nat) returns (r: Pointer)
      requires Terminated(a[..], sep) && Offset(a.Length) == 0 && Ended(a[..], if str.At? then str else p)
      modifies this, a
      ensures var start := if str.At? then str else old(p);
              var seps := Str(old(a[..]), sep);
              var tokens := Rest(old(a[..]), start, seps);
              && (r.Null? <==> tokens == [])
              && (r.Null? ==> p == Null && a[..] == old(a[..]))
              && (r.At? ==>
                Str(a[..], r.addr) == tokens[0] && Terminated(a[..], r.addr) &&
                Rest(a[..], p, seps) == tokens[1..])
              && Ended(a[..], p) && (start.At? ==> OnlyWithin(old(a[..]), a[..], start.addr))
    {
      hide *;
      RestIs(a[..], Str(a[..], sep));
      var q := str;
      if q.Null? {
        q := p;
        if q.Null? {
          return Null;
        }
      }
      var s: nat := q.addr;
      WithinItself(a[..], s);
      var k := Strspn(a, s, sep);
      SpanBound(a[..], s, Str(a[..], sep), k);
      if a[s + k] == 0 {
        NoTokens(Str(a[..], s), Str(a[..], sep), k);
        p := Null;
        return Null;
      }
      StrSuffix(a[..], s, k);
      var n := Strcspn(a, s + k, sep);
      FirstToken(a[..], s, Str(a[..], sep), k, n);
      if a[s + k + n] != 0 {
        p := At(s + k + n + 1);
        a[s + k + n] := 0;
      } else {
        p := Null;
      }
      r := At(s + k);
    }
  }

  lemma RestIs(m: seq<bv8>, seps: seq<bv8>)
    ensures Rest(m, Null, seps) == [] && forall i: nat :: Rest(m, At(i), seps) == Tokens(Str(m, i), seps)
    ensures Ended(m, Null) && forall i: nat :: Ended(m, At(i)) <==> Terminated(m, i)
  {
  }

  lemma WithinItself(m: seq<bv8>, s: nat)
    ensures OnlyWithin(m, m, s)
  {
  }

  lemma SpanBound(m: seq<bv8>, s: nat, y: seq<bv8>, k: nat)
    requires Terminated(m, s) && Spans(Str(m, s), y, k)
    ensures k <= |Str(m, s)| && s + k < |m| && (m[s + k] == 0 <==> k == |Str(m, s)|)
  {
    StrEnd(m, s);
  }
}
