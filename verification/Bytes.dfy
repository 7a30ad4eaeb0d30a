/** Bytes of a little-endian word memory, for memset and memcpy. */
module Bytes {
  import opened Machine
  import opened HeapMemory
  import opened FreeList
  import opened Tiling

  // Byte k of a word, least significant first.
  function ByteOf(w: nat, k: nat): nat {
    if k == 0 then w % 256 else ByteOf(w / 256, k - 1)
  }

  function SetByte(w: nat, k: nat, v: nat): nat {
    if k == 0 then w / 256 * 256 + v else SetByte(w / 256, k - 1, v) * 256 + w % 256
  }

  function Pow256(n: nat): nat {
    if n == 0 then 1 else 256 * Pow256(n - 1)
  }

  lemma {:induction false} SetByteGet(w: nat, k: nat, v: nat, j: nat)
    requires v < 256
    ensures ByteOf(SetByte(w, k, v), j) == if j == k then v else ByteOf(w, j)
  {
    if j == 0 || k == 0 {
    } else {
      SetByteGet(w / 256, k - 1, v, j - 1);
    }
  }

  lemma {:induction false} SetByteBound(w: nat, k: nat, v: nat, n: nat)
    requires v < 256 && w < Pow256(n) && k < n
    ensures SetByte(w, k, v) < Pow256(n)
  {
    var p := Pow256(n - 1);
    assert Pow256(n) == 256 * p && w / 256 < p;
    if k > 0 {
      SetByteBound(w / 256, k - 1, v, n - 1);
    }
  }

  lemma EightBytes()
    ensures Pow256(8) == TWO64
  {
    assert Pow256(4) == 0x1_0000_0000;
  }

  // The byte at byte offset a of memory.
  function ByteAt(m: Memory, a: nat): nat
    requires a / 8 < |m|
  {
    ByteOf(m[a / 8], a % 8)
  }

  // m' is m with byte a set to v.
  ghost predicate StoredByte(m: Memory, a: nat, v: nat, m': Memory) {
    && |m'| == |m| && a / 8 < |m|
    && (forall w: nat :: w < |m| && w != a / 8 ==> m'[w] == m[w])
    && (forall j: nat :: j < 8 ==> ByteOf(m'[a / 8], j) == if j == a % 8 then v else ByteOf(m[a / 8], j))
  }

  lemma StoredByteMeaning(m: Memory, a: nat, v: nat, m': Memory, c: nat)
    requires StoredByte(m, a, v, m') && c / 8 < |m|
    ensures ByteAt(m', c) == if c == a then v else ByteAt(m, c)
  {
  }

  method StoreByte(mem: array<Word>, a: nat, v: nat)
    requires a / 8 < mem.Length && v < 256
    modifies mem
    ensures StoredByte(old(mem[..]), a, v, mem[..])
  {
    ghost var m := mem[..];
    var w := mem[a / 8];
    EightBytes();
    SetByteBound(w, a % 8, v, 8);
    mem[a / 8] := SetByte(w, a % 8, v);
    forall j: nat | j < 8
      ensures ByteOf(mem[..][a / 8], j) == if j == a % 8 then v else ByteOf(m[a / 8], j)
    {
      SetByteGet(w, a % 8, v, j);
    }
  }

  // Bytes outside [a, a + n) are the same in both memories.
  ghost predicate SameOutside(m: Memory, m': Memory, a: nat, n: nat) {
    && |m| == |m'|
    && forall c: nat {:trigger ByteAt(m', c)} :: c / 8 < |m| && !(a <= c < a + n) ==> ByteAt(m', c) == ByteAt(m, c)
  }

  method Memset(mem: array<Word>, a: nat, value: nat, n: nat)
    requires a + n <= 8 * mem.Length && value < 256
    modifies mem
    ensures SameOutside(old(mem[..]), mem[..], a, n)
    ensures forall c: nat {:trigger ByteAt(mem[..], c)} :: a <= c < a + n ==> ByteAt(mem[..], c) == value
    ensures forall w: nat :: w < mem.Length && (8 * w + 8 <= a || a + n <= 8 * w) ==> mem[w] == old(mem[w])
  {
    var i := 0;
    while i < n
      invariant 0 <= i <= n
      invariant SameOutside(old(mem[..]), mem[..], a, i)
      invariant forall c: nat {:trigger ByteAt(mem[..], c)} :: a <= c < a + i ==> ByteAt(mem[..], c) == value
      invariant forall w: nat :: w < mem.Length && (8 * w + 8 <= a || a + n <= 8 * w) ==> mem[w] == old(mem[w])
    {
      ghost var m := mem[..];
      StoreByte(mem, a + i, value);
      forall c: nat | c / 8 < |m| ensures ByteAt(mem[..], c) == if c == a + i then value else ByteAt(m, c) {
        StoredByteMeaning(m, a + i, value, mem[..], c);
      }
      forall w: nat | w < mem.Length && w != (a + i) / 8 ensures mem[w] == m[w] {
        assert mem[..][w] == m[w];
      }
      i := i + 1;
    }
  }

  // memcpy between two stretches of words that do not share a word
  method Memcpy(mem: array<Word>, dst: nat, src: nat, n: nat)
    requires dst + n <= 8 * mem.Length && src + n <= 8 * mem.Length
    requires dst + n <= src || src + n <= dst
    modifies mem
    ensures SameOutside(old(mem[..]), mem[..], dst, n)
    ensures Copied(mem[..], dst, old(mem[..]), src, n)
    ensures forall w: nat :: w < mem.Length && (8 * w + 8 <= dst || dst + n <= 8 * w) ==> mem[w] == old(mem[w])
  {
    ghost var start := mem[..];
    var i := 0;
    while i < n
      invariant 0 <= i <= n
      invariant SameOutside(start, mem[..], dst, i)
      invariant forall c: nat {:trigger ByteAt(mem[..], c)} :: dst <= c < dst + i ==>
                  ByteAt(mem[..], c) == ByteAt(start, src + c - dst)
      invariant forall w: nat :: w < mem.Length && (8 * w + 8 <= dst || dst + n <= 8 * w) ==> mem[w] == start[w]
    {
      ghost var m := mem[..];
      var v := ByteOf(mem[(src + i) / 8], (src + i) % 8);
      assert v == ByteAt(m, src + i) == ByteAt(start, src + i);
      ByteBound(m[(src + i) / 8], (src + i) % 8);
      StoreByte(mem, dst + i, v);
      forall c: nat | c / 8 < |m| ensures ByteAt(mem[..], c) == if c == dst + i then v else ByteAt(m, c) {
        StoredByteMeaning(m, dst + i, v, mem[..], c);
      }
      forall w: nat | w < mem.Length && w != (dst + i) / 8 ensures mem[w] == m[w] {
        assert mem[..][w] == m[w];
      }
      i := i + 1;
    }
  }

  lemma {:induction false} ByteBound(w: nat, k: nat)
    ensures ByteOf(w, k) < 256
  {
    if k > 0 {
      ByteBound(w / 256, k - 1);
    }
  }

  // The n bytes of m' from dst on are the n bytes of m from src on.
  ghost predicate Copied(m': Memory, dst: nat, m: Memory, src: nat, n: nat) {
    && dst + n <= 8 * |m'| && src + n <= 8 * |m|
    && forall c: nat {:trigger ByteAt(m', c)} :: dst <= c < dst + n ==> ByteAt(m', c) == ByteAt(m, src + c - dst)
  }

  ghost predicate AllZero(m: Memory, a: nat, n: nat) {
    && a + n <= 8 * |m|
    && forall c: nat {:trigger ByteAt(m, c)} :: a <= c < a + n ==> ByteAt(m, c) == 0
  }

  // Bytes of untouched payloads are untouched.
  lemma PayloadBytesKept(m: Memory, m': Memory, live: set<Block>, b: Block, n: nat)
    requires Untouched(m, m', live) && b in live && End(b) <= |m| && n <= 8 * b.words
    ensures Copied(m', 8 * (b.at + 2), m, 8 * (b.at + 2), n)
  {
    LiveWordsOf(live, b);
    forall c: nat {:trigger ByteAt(m', c)} | 8 * (b.at + 2) <= c < 8 * (b.at + 2) + n
      ensures ByteAt(m', c) == ByteAt(m, c)
    {
      assert Occupies(b, c / 8);
    }
  }

  // A move ends with the old payload at the start of the new block.
  lemma MoveKeepsPayload(m0: Memory, m1: Memory, m2: Memory, m3: Memory, live: set<Block>, from: Block, to: Block,
                         n: nat)
    requires Untouched(m0, m1, live) && from in live && to != from
    requires Untouched(m2, m3, live + {to} - {from})
    requires End(from) <= |m0| && End(to) <= |m2| && n <= 8 * from.words && n <= 8 * to.words
    requires Copied(m2, 8 * (to.at + 2), m1, 8 * (from.at + 2), n)
    ensures Copied(m3, 8 * (to.at + 2), m0, 8 * (from.at + 2), n)
  {
    PayloadBytesKept(m0, m1, live, from, n);
    PayloadBytesKept(m2, m3, live + {to} - {from}, to, n);
    var (a, b) := (8 * (to.at + 2), 8 * (from.at + 2));
    forall c: nat {:trigger ByteAt(m3, c)} | a <= c < a + n ensures ByteAt(m3, c) == ByteAt(m0, b + c - a) {
      assert ByteAt(m3, c) == ByteAt(m2, c);
      assert ByteAt(m1, b + c - a) == ByteAt(m0, b + c - a);
    }
  }

  lemma {:induction false} ZeroWord(w: nat, n: nat)
    requires w < Pow256(n) && forall j: nat :: j < n ==> ByteOf(w, j) == 0
    ensures w == 0
  {
    if n > 0 {
      assert ByteOf(w, 0) == 0;
      forall j: nat | j < n - 1 ensures ByteOf(w / 256, j) == 0 {
        assert ByteOf(w, j + 1) == 0;
      }
      ZeroWord(w / 256, n - 1);
    }
  }

  lemma {:induction false} SameBytesSameWord(v: nat, w: nat, n: nat)
    requires v < Pow256(n) && w < Pow256(n) && forall j: nat :: j < n ==> ByteOf(v, j) == ByteOf(w, j)
    ensures v == w
  {
    if n > 0 {
      assert ByteOf(v, 0) == ByteOf(w, 0);
      forall j: nat | j < n - 1 ensures ByteOf(v / 256, j) == ByteOf(w / 256, j) {
        assert ByteOf(v, j + 1) == ByteOf(w, j + 1);
      }
      SameBytesSameWord(v / 256, w / 256, n - 1);
    }
  }

  /** Whole words of copied bytes are copied words. */
  lemma CopiedWords(m': Memory, dst: nat, m: Memory, src: nat, n: nat, i: nat)
    requires Copied(m', 8 * dst, m, 8 * src, n) && 8 * i + 8 <= n
    ensures dst + i < |m'| && src + i < |m| && m'[dst + i] == m[src + i]
  {
    EightBytes();
    var (v, w) := (m'[dst + i], m[src + i]);
    forall j: nat | j < 8 ensures ByteOf(v, j) == ByteOf(w, j) {
      assert ByteAt(m', 8 * (dst + i) + j) == ByteAt(m, 8 * (src + i) + j);
    }
    SameBytesSameWord(v, w, 8);
  }

  /** Whole words of zero bytes are zero. */
  lemma ZeroBytesZeroWords(m: Memory, a: nat, n: nat, w: nat)
    requires AllZero(m, a, n) && a <= 8 * w && 8 * w + 8 <= a + n
    ensures m[w] == 0
  {
    EightBytes();
    forall j: nat | j < 8 ensures ByteOf(m[w], j) == 0 {
      assert ByteAt(m, 8 * w + j) == 0;
    }
    ZeroWord(m[w], 8);
  }
}
