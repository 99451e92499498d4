/** Memory as 32-bit words, and the fields of the chunks that live in it. */
module Words {

  const TWO32 := 0x1_0000_0000

  /** Word-addressed memory: the word at byte address a, for a divisible by four.
      Words never written are zero, as HeapMemory_expand clears each frame it maps. */
  type Mem = map<int, int>

  function Rd(m: Mem, a: int): int {
    if a in m then m[a] else 0
  }

  /** Fields of struct malloc_chunk and struct malloc_tree_chunk at chunk address p. */
  function PrevFoot(m: Mem, p: int): int { Rd(m, p) }
  function Head(m: Mem, p: int): int { Rd(m, p + 4) }
  function Fd(m: Mem, p: int): int { Rd(m, p + 8) }
  function Bk(m: Mem, p: int): int { Rd(m, p + 12) }
  function Child0(m: Mem, p: int): int { Rd(m, p + 16) }
  function Child1(m: Mem, p: int): int { Rd(m, p + 20) }
  function Parent(m: Mem, p: int): int { Rd(m, p + 24) }
  function Index(m: Mem, p: int): int { Rd(m, p + 28) }

  /** chunksize, cinuse and pinuse of a head word. */
  function SizeOf(h: int): int { h - h % 8 }
  predicate Cinuse(h: int) { h / 2 % 2 == 1 }
  predicate Pinuse(h: int) { h % 2 == 1 }

  /** The head word of a chunk: its size with the two in-use bits or'ed in. */
  function HeadWord(size: int, cinuse: bool, pinuse: bool): int {
    size + (if cinuse then 2 else 0) + (if pinuse then 1 else 0)
  }

  /** clear_pinuse, and or'ing PINUSE_BIT into a head. */
  function ClearPinuse(m: Mem, n: int): Mem { m[n + 4 := Head(m, n) - Head(m, n) % 2] }
  function SetPinuse(m: Mem, n: int): Mem { m[n + 4 := if Pinuse(Head(m, n)) then Head(m, n) else Head(m, n) + 1] }

  /** set_size_and_pinuse_of_free_chunk and set_free_with_pinuse. */
  function SetFree(m: Mem, p: int, s: int): Mem { m[p + 4 := s + 1][p + s := s] }
  function SetFreeWithPinuse(m: Mem, p: int, s: int, n: int): Mem { SetFree(ClearPinuse(m, n), p, s) }

  /** set_size_and_pinuse_of_inuse_chunk, set_inuse_and_pinuse and set_inuse. */
  function SetInuseChunk(m: Mem, p: int, s: int): Mem { m[p + 4 := s + 3] }
  function SetInuseAndPinuse(m: Mem, p: int, s: int): Mem { SetPinuse(SetInuseChunk(m, p, s), p + s) }
  function SetInuse(m: Mem, p: int, s: int): Mem { SetPinuse(m[p + 4 := Head(m, p) % 2 + s + 2], p + s) }

  lemma HeadWordFields(size: int, cinuse: bool, pinuse: bool)
    requires size % 8 == 0
    ensures var h := HeadWord(size, cinuse, pinuse);
            SizeOf(h) == size && (Cinuse(h) <==> cinuse) && (Pinuse(h) <==> pinuse)
  {
    LowBits(size / 8, if cinuse then 1 else 0, if pinuse then 1 else 0);
  }

  lemma LowBits(k: int, c: int, p: int)
    requires 0 <= c < 2 && 0 <= p < 2
    ensures var h := 8 * k + 2 * c + p; h % 8 == 2 * c + p && h % 2 == p && h / 2 % 2 == c
  {
    RestOfEight(k, 2 * c + p);
    RestOfTwo(4 * k + c, p);
    RestOfTwo(2 * k, c);
  }

  lemma RestOfEight(k: int, r: int)
    requires 0 <= r < 8
    ensures (8 * k + r) % 8 == r
  {
  }

  lemma RestOfFour(k: int)
    ensures 4 * k % 4 == 0
  {
  }

  lemma RestOfTwo(k: int, r: int)
    requires 0 <= r < 2
    ensures (2 * k + r) / 2 == k && (2 * k + r) % 2 == r
  {
  }
}
