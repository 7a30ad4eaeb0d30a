/** How a free list lies in memory: the header of every block is two words of
    the memory it manages, the payload size in bytes and the virtual address of
    the next free block. Memory is a sequence of 64-bit words; word w has the
    virtual address hhdm + 8 * w. */
module HeapMemory {
  import opened Machine
  import opened FreeList

  type Memory = seq<Word>

  function Addr(hhdm: nat, w: nat): nat { hhdm + 8 * w }

  // The address of block i of the list, or NULL past its end.
  function Ptr(hhdm: nat, l: seq<Block>, i: nat): nat {
    if i < |l| then Addr(hhdm, l[i].at) else 0
  }

  // The header of block i, as stored in memory.
  ghost predicate HeaderAt(m: Memory, hhdm: nat, l: seq<Block>, i: nat)
    requires i < |l|
  {
    && End(l[i]) <= |m|
    && m[l[i].at] == 8 * l[i].words
    && m[l[i].at + 1] == Ptr(hhdm, l, i + 1)
  }

  // free_head and the next fields of memory spell out exactly the list l.
  ghost predicate Linked(m: Memory, hhdm: nat, head: nat, l: seq<Block>) {
    && head == Ptr(hhdm, l, 0)
    && forall i: nat :: i < |l| ==> HeaderAt(m, hhdm, l, i)
  }

  // m' differs from m only at the words in ws.
  ghost predicate OnlyIn(m: Memory, m': Memory, ws: iset<int>) {
    |m| == |m'| && forall w: nat :: w < |m| && w !in ws ==> m[w] == m'[w]
  }

  // m' differs from m only inside the given frames.
  ghost predicate OnlyFrames(m: Memory, m': Memory, frames: set<nat>) {
    |m| == |m'| && forall w: nat :: w < |m| && w / 512 !in frames ==> m'[w] == m[w]
  }

  lemma OnlyFramesTrans(m: Memory, m1: Memory, m2: Memory, a: set<nat>, b: set<nat>)
    requires OnlyFrames(m, m1, a) && OnlyFrames(m1, m2, b)
    ensures OnlyFrames(m, m2, a + b)
  {
  }

  // ------------------------------------------------------------ list surgery

  // b becomes block k: it points at the old block k, its predecessor at it.
  function StitchMem(m: Memory, hhdm: nat, l: seq<Block>, k: nat, b: Block): Memory
    requires k <= |l| && End(b) <= |m| && (k > 0 ==> l[k - 1].at + 1 < |m|)
    requires Ptr(hhdm, l, k) < TWO64 && Addr(hhdm, b.at) < TWO64
  {
    var m1 := m[b.at + 1 := Ptr(hhdm, l, k)];
    if k > 0 then m1[l[k - 1].at + 1 := Addr(hhdm, b.at)] else m1
  }

  ghost predicate CanStitch(m: Memory, hhdm: nat, head: nat, l: seq<Block>, k: nat, b: Block) {
    && Linked(m, hhdm, head, l) && Canonical(l) && Fits(l, k, b)
    && hhdm + 8 * |m| <= TWO64
    && End(b) <= |m| && m[b.at] == 8 * b.words
  }

  lemma StitchBounds(m: Memory, hhdm: nat, head: nat, l: seq<Block>, k: nat, b: Block)
    requires CanStitch(m, hhdm, head, l, k, b)
    ensures Ptr(hhdm, l, k) < TWO64 && (k > 0 ==> HeaderAt(m, hhdm, l, k - 1))
  {
    assert k < |l| ==> HeaderAt(m, hhdm, l, k);
    assert k > 0 ==> HeaderAt(m, hhdm, l, k - 1);
  }

  lemma StitchBefore(m: Memory, hhdm: nat, head: nat, l: seq<Block>, k: nat, b: Block, i: nat)
    requires CanStitch(m, hhdm, head, l, k, b) && i < k
    ensures Ptr(hhdm, l, k) < TWO64 && End(l[k - 1]) <= |m|
    ensures HeaderAt(StitchMem(m, hhdm, l, k, b), hhdm, Insert(l, k, b), i)
  {
    hide Insert;
    StitchBounds(m, hhdm, head, l, k, b);
    InsertAt(l, k, b);
    assert HeaderAt(m, hhdm, l, i) && End(l[i]) <= b.at;
    assert i < k - 1 ==> End(l[i]) < l[k - 1].at;
  }

  lemma StitchAfter(m: Memory, hhdm: nat, head: nat, l: seq<Block>, k: nat, b: Block, i: nat)
    requires CanStitch(m, hhdm, head, l, k, b) && k <= i <= |l|
    ensures Ptr(hhdm, l, k) < TWO64 && (k > 0 ==> End(l[k - 1]) <= |m|)
    ensures HeaderAt(StitchMem(m, hhdm, l, k, b), hhdm, Insert(l, k, b), i)
  {
    hide Insert;
    StitchBounds(m, hhdm, head, l, k, b);
    InsertAt(l, k, b);
    if i > k {
      assert HeaderAt(m, hhdm, l, i - 1) && End(b) <= l[i - 1].at;
    }
    assert k > 0 ==> End(l[k - 1]) <= b.at;
  }

  lemma StitchLinked(m: Memory, hhdm: nat, head: nat, l: seq<Block>, k: nat, b: Block)
    requires CanStitch(m, hhdm, head, l, k, b)
    ensures Ptr(hhdm, l, k) < TWO64 && (k > 0 ==> HeaderAt(m, hhdm, l, k - 1))
    ensures Linked(StitchMem(m, hhdm, l, k, b), hhdm, if k > 0 then head else Addr(hhdm, b.at), Insert(l, k, b))
  {
    StitchBounds(m, hhdm, head, l, k, b);
    var (m', l') := (StitchMem(m, hhdm, l, k, b), Insert(l, k, b));
    forall i: nat | i < |l'| ensures HeaderAt(m', hhdm, l', i) {
      if i < k {
        StitchBefore(m, hhdm, head, l, k, b, i);
      } else {
        StitchAfter(m, hhdm, head, l, k, b, i);
      }
    }
    InsertAt(l, k, b);
  }

  // Block k swallows its successor.
  function MergeMem(m: Memory, l: seq<Block>, k: nat): Memory
    requires k + 1 < |l| && End(l[k]) <= |m| && End(l[k + 1]) <= |m|
    requires m[l[k].at] + 16 + m[l[k + 1].at] < TWO64
  {
    m[l[k].at := m[l[k].at] + 16 + m[l[k + 1].at]][l[k].at + 1 := m[l[k + 1].at + 1]]
  }

  lemma MergeLinked(m: Memory, hhdm: nat, head: nat, l: seq<Block>, k: nat)
    requires Linked(m, hhdm, head, l) && Ordered(l) && Touches(l, k)
    requires hhdm + 8 * |m| <= TWO64
    ensures HeaderAt(m, hhdm, l, k) && HeaderAt(m, hhdm, l, k + 1)
    ensures m[l[k].at] + 16 + m[l[k + 1].at] < TWO64
    ensures Linked(MergeMem(m, l, k), hhdm, head, Merge(l, k))
  {
    assert HeaderAt(m, hhdm, l, k) && HeaderAt(m, hhdm, l, k + 1);
    var (m', l') := (MergeMem(m, l, k), Merge(l, k));
    forall i: nat | i < |l'| ensures HeaderAt(m', hhdm, l', i) {
      if i < k {
        assert HeaderAt(m, hhdm, l, i);
      } else if i > k {
        assert HeaderAt(m, hhdm, l, i + 1);
      }
    }
  }

  // Redirects whatever pointed at block k: prev->next, or the head.
  function RelinkMem(m: Memory, l: seq<Block>, k: nat, target: Word): Memory
    requires k < |l| && (k > 0 ==> l[k - 1].at + 1 < |m|)
  {
    if k > 0 then m[l[k - 1].at + 1 := target] else m
  }

  lemma UnlinkedBefore(m: Memory, hhdm: nat, head: nat, l: seq<Block>, k: nat, i: nat)
    requires Linked(m, hhdm, head, l) && Ordered(l) && i < k < |l|
    ensures HeaderAt(m, hhdm, l, k) && HeaderAt(m, hhdm, l, k - 1)
    ensures HeaderAt(RelinkMem(m, l, k, m[l[k].at + 1]), hhdm, Remove(l, k), i)
  {
    hide Remove;
    RemoveAt(l, k);
    assert HeaderAt(m, hhdm, l, k) && HeaderAt(m, hhdm, l, k - 1) && HeaderAt(m, hhdm, l, i);
    assert i < k - 1 ==> End(l[i]) <= l[k - 1].at;
  }

  lemma UnlinkedAfter(m: Memory, hhdm: nat, head: nat, l: seq<Block>, k: nat, i: nat)
    requires Linked(m, hhdm, head, l) && Ordered(l) && k <= i && i + 1 < |l|
    ensures HeaderAt(m, hhdm, l, k) && (k > 0 ==> HeaderAt(m, hhdm, l, k - 1))
    ensures HeaderAt(RelinkMem(m, l, k, m[l[k].at + 1]), hhdm, Remove(l, k), i)
  {
    hide Remove;
    RemoveAt(l, k);
    assert HeaderAt(m, hhdm, l, k) && HeaderAt(m, hhdm, l, i + 1);
    assert k > 0 ==> HeaderAt(m, hhdm, l, k - 1) && End(l[k - 1]) <= l[i + 1].at;
  }

  lemma UnlinkLinked(m: Memory, hhdm: nat, head: nat, l: seq<Block>, k: nat)
    requires Linked(m, hhdm, head, l) && Ordered(l) && k < |l|
    requires hhdm + 8 * |m| <= TWO64
    ensures HeaderAt(m, hhdm, l, k) && (k > 0 ==> HeaderAt(m, hhdm, l, k - 1))
    ensures var next := m[l[k].at + 1];
            Linked(RelinkMem(m, l, k, next), hhdm, if k > 0 then head else next, Remove(l, k))
  {
    assert HeaderAt(m, hhdm, l, k);
    assert k > 0 ==> HeaderAt(m, hhdm, l, k - 1);
    var (m', l') := (RelinkMem(m, l, k, m[l[k].at + 1]), Remove(l, k));
    RemoveAt(l, k);
    forall i: nat | i < |l'| ensures HeaderAt(m', hhdm, l', i) {
      if i < k {
        UnlinkedBefore(m, hhdm, head, l, k, i);
      } else {
        UnlinkedAfter(m, hhdm, head, l, k, i);
      }
    }
  }

  // Writes the headers of a split, before relinking.
  function SplitMem(m: Memory, l: seq<Block>, k: nat, words: nat): Memory
    requires k < |l| && Splits(l[k], words) && End(l[k]) <= |m| && 8 * |m| <= TWO64
  {
    var r := Rest(l[k], words);
    m[r.at := 8 * r.words][r.at + 1 := m[l[k].at + 1]][l[k].at := 8 * words]
  }

  lemma SplitLinked(m: Memory, hhdm: nat, head: nat, l: seq<Block>, k: nat, words: nat)
    requires Linked(m, hhdm, head, l) && Ordered(l) && k < |l| && Splits(l[k], words) && words % 2 == 0
    requires hhdm + 8 * |m| <= TWO64 && words > 0
    ensures HeaderAt(m, hhdm, l, k) && (k > 0 ==> HeaderAt(m, hhdm, l, k - 1))
    ensures var rest := Addr(hhdm, Rest(l[k], words).at);
            && rest < TWO64
            && Linked(RelinkMem(SplitMem(m, l, k, words), l, k, rest), hhdm,
                      if k > 0 then head else rest, l[k := Rest(l[k], words)])
  {
    assert HeaderAt(m, hhdm, l, k);
    assert k > 0 ==> HeaderAt(m, hhdm, l, k - 1);
    var r := Rest(l[k], words);
    var rest := Addr(hhdm, r.at);
    var (m', l') := (RelinkMem(SplitMem(m, l, k, words), l, k, rest), l[k := r]);
    forall i: nat | i < |l'| ensures HeaderAt(m', hhdm, l', i) {
      assert HeaderAt(m, hhdm, l, i);
    }
  }

  lemma SpotFits(l: seq<Block>, k: nat, b: Block)
    requires Canonical(l) && WellFormed(b) && Words(b) !! Cover(l) && k <= |l|
    requires k > 0 ==> l[k - 1].at < b.at
    requires k < |l| ==> b.at <= l[k].at
    ensures Fits(l, k, b)
  {
    forall i | 0 <= i < |l| ensures Apart(l[i], b) {
      BlockInCover(l, i);
      DisjointIsApart(l[i], b);
    }
  }

  lemma BlockInCover(l: seq<Block>, i: nat)
    requires i < |l|
    ensures Words(l[i]) <= Cover(l)
  {
  }

  lemma StitchOnlyIn(m: Memory, hhdm: nat, l: seq<Block>, k: nat, b: Block)
    requires k <= |l| && End(b) <= |m| && (k > 0 ==> End(l[k - 1]) <= |m|)
    requires Ptr(hhdm, l, k) < TWO64 && Addr(hhdm, b.at) < TWO64
    ensures OnlyIn(m, StitchMem(m, hhdm, l, k, b), Cover(l) + Words(b))
  {
    assert Occupies(b, b.at + 1);
    if k > 0 {
      assert Occupies(l[k - 1], l[k - 1].at + 1);
    }
  }

  lemma MergeOnlyIn(m: Memory, l: seq<Block>, k: nat)
    requires k + 1 < |l| && End(l[k]) <= |m| && End(l[k + 1]) <= |m|
    requires m[l[k].at] + 16 + m[l[k + 1].at] < TWO64
    ensures OnlyIn(m, MergeMem(m, l, k), Cover(l))
  {
    assert Occupies(l[k], l[k].at) && Occupies(l[k], l[k].at + 1);
  }

  lemma LinkedKept(m: Memory, m': Memory, ws: iset<int>, hhdm: nat, head: nat, l: seq<Block>)
    requires Linked(m, hhdm, head, l) && OnlyIn(m, m', ws) && ws !! Cover(l)
    ensures Linked(m', hhdm, head, l)
  {
    forall i: nat | i < |l| ensures HeaderAt(m', hhdm, l, i) {
      assert HeaderAt(m, hhdm, l, i);
      assert Occupies(l[i], l[i].at) && Occupies(l[i], l[i].at + 1);
      assert l[i].at in Cover(l) && l[i].at + 1 in Cover(l);
    }
  }

  lemma OnlyInTrans(m: Memory, m': Memory, m'': Memory, ws: iset<int>, ws': iset<int>)
    requires OnlyIn(m, m', ws) && OnlyIn(m', m'', ws') && ws <= ws'
    ensures OnlyIn(m, m'', ws')
  {
  }

  // Memory after kmalloc takes block k: split it, or unlink it whole.
  lemma TakenHeaderSplit(m: Memory, hhdm: nat, l: seq<Block>, k: nat, words: nat)
    requires Ordered(l) && k < |l| && Splits(l[k], words) && words > 0 && End(l[k]) <= |m|
    requires hhdm + 8 * |m| <= TWO64 && (k > 0 ==> End(l[k - 1]) <= |m|)
    ensures var rest := Addr(hhdm, Rest(l[k], words).at);
            && rest < TWO64
            && RelinkMem(SplitMem(m, l, k, words), l, k, rest)[l[k].at] == 8 * words
            && OnlyIn(m, RelinkMem(SplitMem(m, l, k, words), l, k, rest), Cover(l))
  {
    var r := Rest(l[k], words);
    assert Occupies(l[k], r.at) && Occupies(l[k], r.at + 1) && Occupies(l[k], l[k].at);
    if k > 0 {
      assert Occupies(l[k - 1], l[k - 1].at + 1);
    }
  }

  lemma TakenHeaderWhole(m: Memory, hhdm: nat, l: seq<Block>, k: nat, target: Word)
    requires Ordered(l) && k < |l| && End(l[k]) <= |m| && (k > 0 ==> End(l[k - 1]) <= |m|)
    ensures RelinkMem(m, l, k, target)[l[k].at] == m[l[k].at]
    ensures OnlyIn(m, RelinkMem(m, l, k, target), Cover(l))
  {
    if k > 0 {
      assert Occupies(l[k - 1], l[k - 1].at + 1);
    }
  }
}
