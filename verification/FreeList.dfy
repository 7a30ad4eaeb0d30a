/** The abstract kernel heap: blocks of memory words, address-ordered free
    lists, and the fact that a free list is determined by the memory it covers.

    A block is a 16-byte header (two 8-byte words) followed by its payload, so
    positions and lengths are counted in words. */
module FreeList {
  datatype Block = Block(at: nat, words: nat)

  // block_end, as a word index
  function End(b: Block): nat { b.at + 2 + b.words }

  // Headers are 16-byte aligned, sizes are positive multiples of 16, and no
  // block lies in frame 0.
  predicate WellFormed(b: Block) {
    b.at >= 512 && b.at % 2 == 0 && b.words > 0 && b.words % 2 == 0
  }

  ghost predicate Occupies(b: Block, w: int) { b.at <= w < End(b) }

  // The words of a block, header included.
  ghost function Words(b: Block): iset<int> {
    iset w: int | Occupies(b, w)
  }

  ghost predicate Covered(l: seq<Block>, w: int) {
    exists i :: 0 <= i < |l| && Occupies(l[i], w)
  }

  // All words of a list of blocks.
  ghost function Cover(l: seq<Block>): iset<int> {
    iset w: int | Covered(l, w)
  }

  ghost predicate Apart(b: Block, c: Block) { End(b) <= c.at || End(c) <= b.at }

  // Address-ordered, without overlap; neighbours may touch.
  ghost predicate Ordered(l: seq<Block>) {
    && (forall i :: 0 <= i < |l| ==> WellFormed(l[i]))
    && (forall i, j :: 0 <= i < j < |l| ==> End(l[i]) <= l[j].at)
  }

  /** What the allocator keeps at all times: strictly address-ordered, and no
      two free blocks touch. */
  ghost predicate Canonical(l: seq<Block>) {
    && (forall i :: 0 <= i < |l| ==> WellFormed(l[i]))
    && (forall i, j :: 0 <= i < j < |l| ==> End(l[i]) < l[j].at)
  }

  // ------------------------------------------------------------ edits

  function Insert(l: seq<Block>, k: nat, b: Block): seq<Block>
    requires k <= |l|
  {
    l[..k] + [b] + l[k..]
  }

  function Remove(l: seq<Block>, k: nat): seq<Block>
    requires k < |l|
  {
    l[..k] + l[k + 1..]
  }

  // Block k swallows its successor, header and all.
  function Merge(l: seq<Block>, k: nat): seq<Block>
    requires k + 1 < |l|
  {
    l[..k] + [Block(l[k].at, l[k].words + 2 + l[k + 1].words)] + l[k + 2..]
  }

  lemma InsertAt(l: seq<Block>, k: nat, b: Block)
    requires k <= |l|
    ensures var m := Insert(l, k, b);
            && |m| == |l| + 1 && m[k] == b
            && (forall i :: 0 <= i < k ==> m[i] == l[i])
            && (forall i :: k < i < |m| ==> m[i] == l[i - 1])
  {
  }

  lemma RemoveAt(l: seq<Block>, k: nat)
    requires k < |l|
    ensures var m := Remove(l, k);
            && |m| == |l| - 1
            && (forall i :: 0 <= i < k ==> m[i] == l[i])
            && (forall i :: k <= i < |m| ==> m[i] == l[i + 1])
  {
  }

  predicate Touches(l: seq<Block>, k: int) {
    0 <= k && k + 1 < |l| && End(l[k]) == l[k + 1].at
  }

  function Coalesce(l: seq<Block>, k: int): seq<Block> {
    if Touches(l, k) then Merge(l, k) else l
  }

  // ------------------------------------------------------------ covers

  lemma CoverConcat(l: seq<Block>, m: seq<Block>)
    ensures Cover(l + m) == Cover(l) + Cover(m)
  {
    forall w: int ensures Covered(l + m, w) <==> Covered(l, w) || Covered(m, w) {
      if Covered(l, w) {
        var i :| 0 <= i < |l| && Occupies(l[i], w);
        assert Occupies((l + m)[i], w);
      }
      if Covered(m, w) {
        var i :| 0 <= i < |m| && Occupies(m[i], w);
        assert Occupies((l + m)[|l| + i], w);
      }
    }
  }

  lemma CoverSingle(b: Block)
    ensures Cover([b]) == Words(b)
  {
    forall w: int ensures Covered([b], w) <==> Occupies(b, w) {
      assert Occupies([b][0], w) <==> Occupies(b, w);
    }
  }

  lemma CoverInsert(l: seq<Block>, k: nat, b: Block)
    requires k <= |l|
    ensures Cover(Insert(l, k, b)) == Cover(l) + Words(b)
  {
    hide Cover, Words;
    CoverConcat(l[..k] + [b], l[k..]);
    CoverConcat(l[..k], [b]);
    CoverConcat(l[..k], l[k..]);
    CoverSingle(b);
    assert l[..k] + l[k..] == l;
  }

  lemma CoverSplit(l: seq<Block>, k: nat)
    requires k < |l|
    ensures Cover(l) == Cover(l[..k]) + Words(l[k]) + Cover(l[k + 1..])
  {
    hide Cover, Words;
    CoverConcat(l[..k] + [l[k]], l[k + 1..]);
    CoverConcat(l[..k], [l[k]]);
    CoverSingle(l[k]);
    assert l[..k] + [l[k]] + l[k + 1..] == l;
  }

  lemma CoverNil()
    ensures Cover([]) == iset{}
  {
    assert forall w: int :: !Covered([], w);
  }

  lemma CoverMerge(l: seq<Block>, k: nat)
    requires Touches(l, k)
    ensures Cover(Merge(l, k)) == Cover(l)
  {
    var m := Merge(l, k);
    forall w: int | Covered(m, w) ensures Covered(l, w) {
      var i :| 0 <= i < |m| && Occupies(m[i], w);
      assert i < k ==> Occupies(l[i], w);
      assert i > k ==> Occupies(l[i + 1], w);
      assert i == k ==> Occupies(l[k], w) || Occupies(l[k + 1], w);
    }
    forall w: int | Covered(l, w) ensures Covered(m, w) {
      var i :| 0 <= i < |l| && Occupies(l[i], w);
      assert i < k ==> Occupies(m[i], w);
      assert i > k + 1 ==> Occupies(m[i - 1], w);
      assert i == k || i == k + 1 ==> Occupies(m[k], w);
    }
  }

  // ------------------------------------------------------------ free

  // The list after b has been stitched in before position k and coalesced
  // with whichever neighbours it touches.
  function Freed(l: seq<Block>, k: nat, b: Block): seq<Block>
    requires k <= |l|
  {
    Coalesce(Coalesce(Insert(l, k, b), k), k - 1)
  }

  // b fits between blocks k - 1 and k of l.
  ghost predicate Fits(l: seq<Block>, k: nat, b: Block) {
    && k <= |l|
    && WellFormed(b)
    && (forall i :: 0 <= i < k ==> End(l[i]) <= b.at)
    && (forall i :: k <= i < |l| ==> End(b) <= l[i].at)
  }

  lemma InsertOrdered(l: seq<Block>, k: nat, b: Block)
    requires Canonical(l) && Fits(l, k, b)
    ensures Ordered(Insert(l, k, b))
    ensures forall i :: Touches(Insert(l, k, b), i) ==> i == k || i == k - 1
  {
  }

  lemma MergeOrdered(l: seq<Block>, k: nat)
    requires Ordered(l) && Touches(l, k)
    ensures Ordered(Merge(l, k))
    ensures forall i :: Touches(Merge(l, k), i) ==> Touches(l, if i < k then i else i + 1)
  {
    var m := Merge(l, k);
    forall i, j | 0 <= i < j < |m| ensures End(m[i]) <= m[j].at {
      assert End(l[if i < k then i else i + 1]) <= l[if j <= k then j else j + 1].at;
    }
    forall i | Touches(m, i) ensures Touches(l, if i < k then i else i + 1) {
    }
  }

  lemma {:induction false} NoTouchIsCanonical(l: seq<Block>)
    requires Ordered(l) && forall i :: !Touches(l, i)
    ensures Canonical(l)
  {
    forall i, j | 0 <= i < j < |l| ensures End(l[i]) < l[j].at {
      assert !Touches(l, i);
    }
  }

  // The touching places of m = Coalesce(l, k), in terms of those of l.
  ghost predicate TouchesFrom(l: seq<Block>, k: int, m: seq<Block>) {
    forall i {:trigger Touches(m, i)} :: Touches(m, i) ==>
      if !Touches(l, k) || i < k then Touches(l, i) else Touches(l, i + 1)
  }

  lemma CoalesceMeaning(l: seq<Block>, k: int)
    requires Ordered(l)
    ensures Ordered(Coalesce(l, k)) && Cover(Coalesce(l, k)) == Cover(l)
    ensures TouchesFrom(l, k, Coalesce(l, k))
  {
    if Touches(l, k) {
      MergeOrdered(l, k);
      CoverMerge(l, k);
    }
  }

  // Only the two places next to the new block could touch, and both are gone.
  lemma TouchesGone(l1: seq<Block>, l2: seq<Block>, l3: seq<Block>, k: nat)
    requires forall i :: Touches(l1, i) ==> i == k || i == k - 1
    requires TouchesFrom(l1, k, l2) && TouchesFrom(l2, k - 1, l3)
    ensures forall i :: !Touches(l3, i)
  {
    forall i | Touches(l2, i) ensures i == k - 1 {
      assert if !Touches(l1, k) || i < k then Touches(l1, i) else Touches(l1, i + 1);
    }
  }

  /** free_insert keeps the list canonical and adds exactly the block. */
  lemma FreedMeaning(l: seq<Block>, k: nat, b: Block)
    requires Canonical(l) && Fits(l, k, b)
    ensures Canonical(Freed(l, k, b))
    ensures Cover(Freed(l, k, b)) == Cover(l) + Words(b)
  {
    var l1 := Insert(l, k, b);
    var l2 := Coalesce(l1, k);
    var l3 := Coalesce(l2, k - 1);
    InsertOrdered(l, k, b);
    CoverInsert(l, k, b);
    CoalesceMeaning(l1, k);
    CoalesceMeaning(l2, k - 1);
    TouchesGone(l1, l2, l3, k);
    NoTouchIsCanonical(l3);
    assert l3 == Freed(l, k, b) by { FreedUnfold(l, k, b); }
  }

  lemma FreedUnfold(l: seq<Block>, k: nat, b: Block)
    requires k <= |l|
    ensures Freed(l, k, b) == Coalesce(Coalesce(Insert(l, k, b), k), k - 1)
  {
  }

  // ------------------------------------------------------------ allocate

  // First fit at position k: block k is cut down to `words` if the rest can
  // still hold a header and a minimal payload, and taken whole otherwise.
  predicate Splits(b: Block, words: nat) { b.words >= words + 4 }

  function Taken(b: Block, words: nat): Block {
    if Splits(b, words) then Block(b.at, words) else b
  }

  function Rest(b: Block, words: nat): Block
    requires Splits(b, words)
  {
    Block(b.at + 2 + words, b.words - words - 2)
  }

  function AfterTake(l: seq<Block>, k: nat, words: nat): seq<Block>
    requires k < |l|
  {
    if Splits(l[k], words) then l[k := Rest(l[k], words)] else Remove(l, k)
  }

  ghost predicate FirstFit(l: seq<Block>, k: nat, words: nat) {
    k < |l| && l[k].words >= words && forall i :: 0 <= i < k ==> l[i].words < words
  }

  /** Taking a block leaves a canonical list that covers exactly the rest, and
      reserves at most one 16-byte unit more than asked. */
  lemma TakeMeaning(l: seq<Block>, k: nat, words: nat)
    requires Canonical(l) && FirstFit(l, k, words) && words > 0 && words % 2 == 0
    ensures Canonical(AfterTake(l, k, words))
    ensures Cover(AfterTake(l, k, words)) == Cover(l) - Words(Taken(l[k], words))
    ensures WellFormed(Taken(l[k], words)) && Words(Taken(l[k], words)) <= Cover(l)
    ensures Taken(l[k], words).words == words || Taken(l[k], words).words == words + 2
  {
    var (b, m) := (Taken(l[k], words), AfterTake(l, k, words));
    forall w: int | Occupies(b, w) ensures Covered(l, w) {
      assert Occupies(l[k], w);
    }
    if Splits(l[k], words) {
      SplitCover(l, k, words);
    } else {
      RemoveCover(l, k);
    }
  }

  lemma SplitCover(l: seq<Block>, k: nat, words: nat)
    requires Ordered(l) && k < |l| && Splits(l[k], words)
    ensures Cover(l[k := Rest(l[k], words)]) == Cover(l) - Words(Block(l[k].at, words))
  {
    var m := l[k := Rest(l[k], words)];
    var b := Block(l[k].at, words);
    forall w: int ensures Covered(m, w) <==> Covered(l, w) && !Occupies(b, w) {
      if Covered(m, w) {
        var i :| 0 <= i < |m| && Occupies(m[i], w);
        assert Occupies(l[i], w);
      }
      if Covered(l, w) && !Occupies(b, w) {
        var i :| 0 <= i < |l| && Occupies(l[i], w);
        assert Occupies(m[i], w);
      }
    }
  }

  lemma OthersAreElsewhere(l: seq<Block>, k: nat)
    requires Ordered(l) && k < |l|
    ensures Words(l[k]) !! Cover(l[..k]) && Words(l[k]) !! Cover(l[k + 1..])
  {
  }

  lemma RemoveCover(l: seq<Block>, k: nat)
    requires Ordered(l) && k < |l|
    ensures Cover(Remove(l, k)) == Cover(l) - Words(l[k])
  {
    OthersAreElsewhere(l, k);
    CoverSplit(l, k);
    CoverConcat(l[..k], l[k + 1..]);
  }

  // ------------------------------------------------------------ canonicity

  lemma CoverBounds(l: seq<Block>)
    requires Canonical(l) && l != []
    ensures l[0].at in Cover(l) && End(l[0]) !in Cover(l)
    ensures forall w :: w in Cover(l) ==> l[0].at <= w
    ensures forall w :: l[0].at <= w < End(l[0]) ==> w in Cover(l)
  {
    assert forall w :: l[0].at <= w < End(l[0]) ==> Occupies(l[0], w);
  }

  lemma TailCover(l: seq<Block>)
    requires Canonical(l) && l != []
    ensures Canonical(l[1..]) && Cover(l[1..]) == Cover(l) - Words(l[0])
  {
    RemoveCover(l, 0);
    assert Remove(l, 0) == l[1..];
  }

  /** The free list is canonical: the free words alone determine its blocks,
      their sizes and their order. */
  lemma {:induction false} CanonicalUnique(l: seq<Block>, m: seq<Block>)
    requires Canonical(l) && Canonical(m) && Cover(l) == Cover(m)
    ensures l == m
    decreases |l|
  {
    if l == [] || m == [] {
      CoverNil();
      if l != [] { CoverBounds(l); }
      if m != [] { CoverBounds(m); }
    } else {
      CoverBounds(l);
      CoverBounds(m);
      assert l[0].at == m[0].at;
      assert End(l[0]) == End(m[0]);
      TailCover(l);
      TailCover(m);
      CanonicalUnique(l[1..], m[1..]);
      assert l == [l[0]] + l[1..] && m == [m[0]] + m[1..];
    }
  }

  /** Allocating without growth and freeing at once restores the list. */
  lemma TakeThenFree(l: seq<Block>, k: nat, words: nat, m: seq<Block>)
    requires Canonical(l) && FirstFit(l, k, words) && words > 0 && words % 2 == 0
    requires Canonical(m)
    requires Cover(m) == Cover(AfterTake(l, k, words)) + Words(Taken(l[k], words))
    ensures m == l
  {
    TakeMeaning(l, k, words);
    CanonicalUnique(m, l);
  }

  /** A stretch of free memory lies inside one free block. */
  lemma StretchInOneBlock(l: seq<Block>, b: Block)
    requires Canonical(l) && b.words > 0 && Words(b) <= Cover(l)
    ensures exists i :: 0 <= i < |l| && l[i].words >= b.words
  {
    assert Occupies(b, b.at) && b.at in Words(b);
    var i :| 0 <= i < |l| && Occupies(l[i], b.at);
    if End(l[i]) < End(b) {
      assert Occupies(b, End(l[i])) && End(l[i]) in Words(b);
    }
    NothingAtEnd(l, i);
  }

  // The word right after a free block is not free.
  lemma NothingAtEnd(l: seq<Block>, i: nat)
    requires Canonical(l) && i < |l|
    ensures End(l[i]) !in Cover(l)
  {
  }

  lemma DisjointIsApart(b: Block, c: Block)
    requires Words(b) !! Words(c)
    ensures Apart(b, c)
  {
    var top := if b.at < c.at then c.at else b.at;
    assert Occupies(b, top) <==> top in Words(b);
    assert Occupies(c, top) <==> top in Words(c);
  }

  // A run of frees: lists[i + 1] is lists[i] with blocks[i] freed into it.
  ghost predicate FreeRun(lists: seq<seq<Block>>, blocks: seq<Block>) {
    && |lists| == |blocks| + 1
    && (forall i :: 0 <= i < |lists| ==> Canonical(lists[i]))
    && (forall i {:trigger blocks[i]} :: 0 <= i < |blocks| ==>
          Cover(lists[i + 1]) == Cover(lists[i]) + Words(blocks[i]))
  }

  lemma {:induction false} FreeRunCover(lists: seq<seq<Block>>, blocks: seq<Block>)
    requires FreeRun(lists, blocks)
    ensures Cover(lists[|blocks|]) == Cover(lists[0]) + Cover(blocks)
  {
    if blocks == [] {
      CoverNil();
    } else {
      var n := |blocks| - 1;
      FreeRunCover(lists[..n + 1], blocks[..n]);
      assert blocks == blocks[..n] + [blocks[n]];
      CoverConcat(blocks[..n], [blocks[n]]);
      CoverSingle(blocks[n]);
    }
  }

  lemma SameBlocksSameCover(a: seq<Block>, b: seq<Block>)
    requires multiset(a) == multiset(b)
    ensures Cover(a) == Cover(b)
  {
    assert forall x :: x in a <==> x in multiset(a);
    assert forall x :: x in b <==> x in multiset(b);
    forall w: int ensures Covered(a, w) <==> Covered(b, w) {
      if Covered(a, w) {
        var i :| 0 <= i < |a| && Occupies(a[i], w);
        assert a[i] in b;
      }
      if Covered(b, w) {
        var i :| 0 <= i < |b| && Occupies(b[i], w);
        assert b[i] in a;
      }
    }
  }

  /** Freeing the same blocks in any order ends in the same list. */
  lemma FreeOrderIrrelevant(ls: seq<seq<Block>>, bs: seq<Block>, ms: seq<seq<Block>>, cs: seq<Block>)
    requires FreeRun(ls, bs) && FreeRun(ms, cs)
    requires ls[0] == ms[0] && multiset(bs) == multiset(cs)
    ensures ls[|bs|] == ms[|cs|]
  {
    FreeRunCover(ls, bs);
    FreeRunCover(ms, cs);
    SameBlocksSameCover(bs, cs);
    CanonicalUnique(ls[|bs|], ms[|cs|]);
  }
}
