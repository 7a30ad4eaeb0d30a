/** The kernel heap: a first-fit allocator whose free list lives inside the
    memory it manages. */
module Kalloc {
  import opened Machine
  import opened Bits
  import opened Frames
  import opened Pmm
  import opened FreeList
  import opened HeapMemory
  import opened Tiling
  import opened Bytes

  // Request sizes for which none of the additions in kmalloc and heap_grow
  // wraps around: up to 2^64 - 4127 bytes.
  predicate Bounded(size: nat) { size + 4127 <= TWO64 }

  // The size of an array of n elements.
  function Total(n: nat, size: nat): nat { n * size }

  // The 16-byte units of a request, in words.
  function RequestWords(size: nat): nat { (size + 15) / 16 * 2 }

  // heap_grow asks for at least 64 KiB, in whole frames.
  function GrowFrames(need: nat): nat {
    ((if need + 16 < 65536 then 65536 else need + 16) + 4095) / 4096
  }

  ghost predicate NoneFits(l: seq<Block>, words: nat) {
    forall i :: 0 <= i < |l| ==> l[i].words < words
  }

  // What the heap is made of, apart from memory itself.
  datatype HeapState = HeapState(free: seq<Block>, live: set<Block>, frames: set<nat>, view: Frames.State)

  // A successful allocation: the list searched, the position of the block
  // taken, and the frames added (0 when the heap did not grow).
  datatype Outcome = Outcome(list: seq<Block>, k: nat, phys: nat)

  ghost function BlockOf(o: Outcome, words: nat): Block
    requires o.k < |o.list|
  {
    Taken(o.list[o.k], words)
  }

  /** Which list an allocation searched: the list as it was if some block
      fits, and otherwise the list grown by one run of frames. */
  ghost predicate Searched(s: HeapState, words: nat, list: seq<Block>, phys: nat,
                           frames': set<nat>, view': Frames.State) {
    if !NoneFits(s.free, words) then
      list == s.free && frames' == s.frames && view' == s.view
    else
      var run := FrameRange(phys / 4096, GrowFrames(8 * words));
      && phys != 0 && AllocStep(s.view, GrowFrames(8 * words), phys, view')
      && frames' == s.frames + run
      && Canonical(list) && Cover(list) == Cover(s.free) + FrameWords(run)
  }

  // The payload pointer p is the block taken, now live; it is 16-byte aligned
  // and at most one 16-byte unit longer than the rounded request.
  ghost predicate Placed(o: Outcome, words: nat, hhdm: nat, p: nat, live: set<Block>, live': set<Block>) {
    && o.k < |o.list|
    && var b := BlockOf(o, words);
       && p == Addr(hhdm, b.at) + 16 && p % 16 == 0
       && live' == live + {b} && b !in live
       && (b.words == words || b.words == words + 2)
  }

  /** A successful allocation takes the first fit of the list it searched. */
  ghost predicate Served(s: HeapState, words: nat, o: Outcome, hhdm: nat, p: nat, s': HeapState) {
    && Searched(s, words, o.list, o.phys, s'.frames, s'.view)
    && FirstFit(o.list, o.k, words)
    && s'.free == AfterTake(o.list, o.k, words)
    && Placed(o, words, hhdm, p, s.live, s'.live)
  }

  /** A successful move: an allocation, after which the old block is freed. */
  ghost predicate Moved(s: HeapState, words: nat, o: Outcome, hhdm: nat, p: nat, s': HeapState, blk: Block) {
    exists mid: HeapState ::
      && Served(s, words, o, hhdm, p, mid)
      && Canonical(s'.free) && Cover(s'.free) == Cover(mid.free) + Words(blk)
      && s' == mid.(free := s'.free, live := mid.live - {blk})
  }

  // The n bytes at ptr in m are the n bytes at p in m'.
  ghost predicate Carried(hhdm: nat, m: Memory, ptr: nat, m': Memory, p: nat, n: nat) {
    hhdm <= ptr && hhdm <= p && Copied(m', p - hhdm, m, ptr - hhdm, n)
  }

  /** In words: payloads are carried word by word. */
  lemma CarriedWords(hhdm: nat, m: Memory, ptr: nat, m': Memory, p: nat, words: nat, i: nat)
    requires Carried(hhdm, m, ptr, m', p, 8 * words) && i < words
    requires (ptr - hhdm) % 8 == 0 && (p - hhdm) % 8 == 0
    ensures hhdm <= ptr && hhdm <= p && (p - hhdm) / 8 + i < |m'| && (ptr - hhdm) / 8 + i < |m|
    ensures m'[(p - hhdm) / 8 + i] == m[(ptr - hhdm) / 8 + i]
  {
    CopiedWords(m', (p - hhdm) / 8, m, (ptr - hhdm) / 8, 8 * words, i);
  }

  // No free block is large enough and no run of free frames to grow by exists.
  ghost predicate OutOfMemory(s: HeapState, words: nat) {
    NoneFits(s.free, words) && forall t: nat :: !IsRun(s.view.free, t, GrowFrames(8 * words))
  }

  // ------------------------------------------------------------ the numbers

  // An array of n elements takes n times the size of one.
  lemma TotalMeaning(n: nat, size: nat)
    ensures Total(0, size) == 0 && Total(n + 1, size) == Total(n, size) + size
  {
  }

  /** A request is rounded up to the next multiple of 16 bytes. */
  lemma RequestMeaning(size: nat)
    ensures 8 * RequestWords(size) % 16 == 0 && size <= 8 * RequestWords(size) < size + 16
  {
  }

  /** Growth takes at least 64 KiB, and otherwise the fewest frames that hold a
      header and the request. */
  lemma GrowthBounds(need: nat)
    ensures GrowFrames(need) >= 16 && 4096 * GrowFrames(need) >= need + 16
    ensures GrowFrames(need) > 16 ==> 4096 * (GrowFrames(need) - 1) < need + 16
  {
  }

  // Blocks hold multiples of 16 bytes, so rounding the request up does not
  // change what fits.
  lemma FitMeaning(b: Block, size: nat)
    requires WellFormed(b)
    ensures b.words >= RequestWords(size) <==> 8 * b.words >= size
  {
  }

  lemma NoneFitsMeaning(l: seq<Block>, size: nat)
    requires Canonical(l)
    ensures NoneFits(l, RequestWords(size)) <==> forall b :: b in l ==> 8 * b.words < size
  {
    hide RequestWords;
    forall i | 0 <= i < |l| ensures l[i].words < RequestWords(size) <==> 8 * l[i].words < size {
      FitMeaning(l[i], size);
    }
  }

  lemma NoRunMeaning(free: set<nat>, n: nat)
    ensures (forall t: nat :: !IsRun(free, t, n)) <==> forall t: nat :: !(FrameRange(t, n) <= free)
  {
    if t: nat :| IsRun(free, t, n) {
      assert FrameRange(t, n) <= free;
    }
    if t: nat :| FrameRange(t, n) <= free {
      assert IsRun(free, t, n);
    }
  }

  /** When a request fails, in bytes and frames: n is the number of frames that
      the heap would grow by. */
  lemma OutOfMemoryMeaning(s: HeapState, size: nat, n: nat)
    requires Canonical(s.free) && n >= 16 && 4096 * n >= (size + 15) / 16 * 16 + 16
    requires n == 16 || 4096 * (n - 1) < (size + 15) / 16 * 16 + 16
    ensures OutOfMemory(s, RequestWords(size)) <==>
              && (forall b :: b in s.free ==> 8 * b.words < size)
              && (forall t: nat :: !(FrameRange(t, n) <= s.view.free))
  {
    hide NoneFits, IsRun, FrameRange, Canonical;
    assert GrowFrames(8 * RequestWords(size)) == n;
    NoneFitsMeaning(s.free, size);
    NoRunMeaning(s.view.free, n);
  }

  /** Up to 65520 bytes, that is 16 frames. */
  lemma SmallRequestFails(s: HeapState, size: nat)
    requires Canonical(s.free) && size <= 65520
    ensures OutOfMemory(s, RequestWords(size)) <==>
              && (forall b :: b in s.free ==> 8 * b.words < size)
              && (forall t: nat :: !(FrameRange(t, 16) <= s.view.free))
  {
    hide OutOfMemory, RequestWords;
    OutOfMemoryMeaning(s, size, 16);
  }

  /** The block that serves a request without growth, in bytes: the first free
      block of at least the size asked for, and at most 31 bytes more. */
  lemma FirstFitMeaning(s: HeapState, size: nat, o: Outcome, hhdm: nat, p: nat, s': HeapState, k: nat)
    requires Canonical(s.free) && size > 0 && Served(s, RequestWords(size), o, hhdm, p, s')
    requires k < |s.free| && 8 * s.free[k].words >= size
    requires forall i :: 0 <= i < k ==> 8 * s.free[i].words < size
    ensures p == hhdm + 8 * s.free[k].at + 16
    ensures exists b :: s'.live == s.live + {b} && b.at == s.free[k].at && size <= 8 * b.words < size + 32
    ensures s'.frames == s.frames && s'.view == s.view
  {
    var words := RequestWords(size);
    forall i | 0 <= i <= k ensures s.free[i].words >= words <==> 8 * s.free[i].words >= size {
      FitMeaning(s.free[i], size);
    }
    RequestMeaning(size);
    hide RequestWords, AfterTake, Canonical;
    assert !NoneFits(s.free, words);
    assert o.list == s.free;
    assert o.k == k;
    var b := BlockOf(o, words);
    assert s'.live == s.live + {b} && b.at == s.free[k].at && size <= 8 * b.words < size + 32;
  }

  // On the move path the old size is below the request, so the copy length
  // is the old size.
  lemma OldBelowRequest(b: Block, size: nat)
    requires WellFormed(b) && b.words < RequestWords(size)
    ensures 8 * b.words < size
  {
  }

  lemma AlignRequest(size: nat)
    requires Bounded(size)
    ensures AlignUp(size, 16) == 8 * RequestWords(size)
    ensures RequestWords(size) % 2 == 0 && 8 * RequestWords(size) + 4111 < TWO64
    ensures size > 0 ==> RequestWords(size) > 0
  {
    hide AlignUp;
    RequestAlignment(size);
  }

  // A list with a fitting block is searched as it is.
  lemma SearchedAsIs(s: HeapState, words: nat)
    requires !NoneFits(s.free, words)
    ensures Searched(s, words, s.free, 0, s.frames, s.view)
  {
  }

  // A fit in the list searched serves the request; there was memory for it.
  lemma FitServes(s: HeapState, words: nat, list: seq<Block>, k: nat, phys: nat, hhdm: nat, p: nat, s': HeapState)
    requires Searched(s, words, list, phys, s'.frames, s'.view)
    requires FirstFit(list, k, words) && s'.free == AfterTake(list, k, words)
    requires Placed(Outcome(list, k, 0), words, hhdm, p, s.live, s'.live)
    ensures Served(s, words, Outcome(list, k, phys), hhdm, p, s')
    ensures !OutOfMemory(s, words)
  {
  }

  class Heap {
    const mem: array<Word>          // all of physical memory, by word
    const hhdm: nat                 // virtual address of physical address 0
    const pmm: FrameAllocator
    var freeHead: nat
    ghost var free: seq<Block>      // the free list, in order
    ghost var live: set<Block>      // the blocks handed out
    ghost var frames: set<nat>      // the frames taken from the PMM

    constructor (mem: array<Word>, hhdm: nat, pmm: FrameAllocator)
      ensures this.mem == mem && this.hhdm == hhdm && this.pmm == pmm
    {
      this.mem, this.hhdm, this.pmm := mem, hhdm, pmm;
      freeHead, free, live, frames := 0, [], {}, {};
    }

    ghost function State(): HeapState
      reads this, pmm
    {
      HeapState(free, live, frames, pmm.view)
    }

    ghost predicate ListOk()
      reads this, mem
    {
      && hhdm + 8 * mem.Length <= TWO64
      && Canonical(free)
      && Linked(mem[..], hhdm, freeHead, free)
    }

    // The first loop of free_insert.
    method FindSpot(b: nat, ghost blk: Block) returns (prev: nat, cur: nat, ghost k: nat)
      requires ListOk() && b == Addr(hhdm, blk.at)
      requires WellFormed(blk) && Words(blk) !! Cover(free)
      ensures Fits(free, k, blk) && cur == Ptr(hhdm, free, k)
      ensures prev == if k == 0 then 0 else Addr(hhdm, free[k - 1].at)
    {
      prev, cur, k := 0, freeHead, 0;
      while cur != 0 && cur < b
        invariant k <= |free| && cur == Ptr(hhdm, free, k)
        invariant prev == if k == 0 then 0 else Addr(hhdm, free[k - 1].at)
        invariant k > 0 ==> free[k - 1].at < blk.at
        decreases |free| - k
      {
        assert HeaderAt(mem[..], hhdm, free, k);
        prev := cur;
        cur := mem[(cur - hhdm) / 8 + 1];
        k := k + 1;
      }
      SpotFits(free, k, blk);
    }

    // The pointer writes of free_insert, before it coalesces.
    method Stitch(prev: nat, cur: nat, b: nat, ghost k: nat, ghost blk: Block)
      requires CanStitch(mem[..], hhdm, freeHead, free, k, blk)
      requires b == Addr(hhdm, blk.at) && cur == Ptr(hhdm, free, k)
      requires prev == if k == 0 then 0 else Addr(hhdm, free[k - 1].at)
      modifies this`freeHead, mem
      ensures Linked(mem[..], hhdm, freeHead, Insert(free, k, blk))
      ensures OnlyIn(old(mem[..]), mem[..], Cover(free) + Words(blk))
    {
      ghost var m := mem[..];
      StitchLinked(m, hhdm, freeHead, free, k, blk);
      mem[(b - hhdm) / 8 + 1] := cur;
      if prev != 0 {
        mem[(prev - hhdm) / 8 + 1] := b;
      } else {
        freeHead := b;
      }
      assert mem[..] == StitchMem(m, hhdm, free, k, blk);
      StitchOnlyIn(m, hhdm, free, k, blk);
    }

    // The two writes of a coalescing.
    method MergeAt(i: nat, j: nat, ghost l: seq<Block>, ghost k: nat)
      requires k + 1 < |l| && i == l[k].at && j == l[k + 1].at && i < j
      requires End(l[k]) <= mem.Length && End(l[k + 1]) <= mem.Length
      requires mem[i] + 16 + mem[j] < TWO64
      modifies mem
      ensures mem[..] == MergeMem(old(mem[..]), l, k)
    {
      mem[i] := mem[i] + 16 + mem[j];
      mem[i + 1] := mem[j + 1];
    }

    // Coalesce block x with its successor y if both exist and they touch.
    method CoalesceAt(x: nat, y: nat, ghost l: seq<Block>, ghost k: int)
      requires Linked(mem[..], hhdm, freeHead, l) && Ordered(l)
      requires hhdm + 8 * mem.Length <= TWO64 && -1 <= k < |l|
      requires x == (if k < 0 then 0 else Addr(hhdm, l[k].at)) && y == Ptr(hhdm, l, k + 1)
      modifies mem
      ensures Linked(mem[..], hhdm, freeHead, Coalesce(l, k))
      ensures OnlyIn(old(mem[..]), mem[..], Cover(l))
    {
      if x != 0 && y != 0 {
        ghost var m := mem[..];
        assert HeaderAt(m, hhdm, l, k) && HeaderAt(m, hhdm, l, k + 1);
        var (i, j) := ((x - hhdm) / 8, (y - hhdm) / 8);
        assert i == l[k].at && j == l[k + 1].at;
        if x + 16 + mem[i] == y {
          assert Touches(l, k);
          MergeLinked(m, hhdm, freeHead, l, k);
          MergeOnlyIn(m, l, k);
          MergeAt(i, j, l, k);
        }
      }
    }

    /** free_insert: the block joins the free list, which stays canonical and
        covers exactly its words more. Only free memory is written. */
    method FreeInsert(b: nat, ghost blk: Block)
      requires ListOk() && b == Addr(hhdm, blk.at)
      requires WellFormed(blk) && End(blk) <= mem.Length && mem[blk.at] == 8 * blk.words
      requires Words(blk) !! Cover(free)
      modifies this`freeHead, this`free, mem
      ensures ListOk() && Cover(free) == Cover(old(free)) + Words(blk)
      ensures OnlyIn(old(mem[..]), mem[..], Cover(free))
    {
      var prev, cur;
      ghost var k;
      prev, cur, k := FindSpot(b, blk);
      ghost var l1 := Insert(free, k, blk);
      InsertOrdered(free, k, blk);
      InsertAt(free, k, blk);
      CoverInsert(free, k, blk);
      Stitch(prev, cur, b, k, blk);
      CoalesceAt(b, cur, l1, k);
      ghost var l2 := Coalesce(l1, k);
      CoalesceMeaning(l1, k);
      CoalesceAt(prev, b, l2, k as int - 1);
      FreedMeaning(free, k, blk);
      free := Freed(free, k, blk);
    }

    /** The heap invariant. */
    ghost predicate Valid()
      reads this, mem, pmm, pmm.bitmap
    {
      && hhdm % 4096 == 0
      && ListOk()
      && LiveOk(mem[..], live)
      && Tiled(free, live, frames)
      && PmmOk()
    }

    ghost predicate PmmOk()
      reads this, pmm, pmm.bitmap
    {
      && pmm.Valid()
      && (mem as object) != pmm.bitmap
      && 512 * pmm.frameCount <= mem.Length
      && frames <= pmm.view.held
    }

    /** heap_grow: a fresh run of frames becomes one free block, coalesced with
        its neighbours; without a run nothing changes. */
    method HeapGrow(need: nat) returns (ok: bool, ghost phys: nat)
      requires Valid() && need > 0 && need + 4111 < TWO64
      modifies this`freeHead, this`free, this`frames, mem, pmm, pmm.bitmap
      ensures Valid() && pmm.bitmap == old(pmm.bitmap)
      ensures (ok <==> phys != 0) && (ok ==> phys / 4096 > 0)
      ensures AllocStep(old(pmm.view), GrowFrames(need), phys, pmm.view)
      ensures !ok ==> free == old(free) && frames == old(frames) && mem[..] == old(mem[..])
      ensures ok ==> frames == old(frames) + FrameRange(phys / 4096, GrowFrames(need))
      ensures ok ==> Cover(free) == Cover(old(free)) + FrameWords(FrameRange(phys / 4096, GrowFrames(need)))
      ensures ok ==> exists i :: 0 <= i < |free| && 8 * free[i].words >= need
      ensures OnlyIn(old(mem[..]), mem[..], Cover(free))
    {
      var count := GrowCount(need);
      var p := pmm.AllocFrames(count);
      assert mem[..] == old(mem[..]);
      phys := p;
      if p == 0 {
        return false, 0;
      }
      AddRun(p, count);
      ok := true;
      ghost var b := RunBlock(p / 4096, count);
      RunBlockWords(p / 4096, count);
      StretchInOneBlock(free, b);
    }

    // The number of frames heap_grow asks for.
    method GrowCount(need: nat) returns (count: nat)
      requires need + 4111 < TWO64
      ensures count == GrowFrames(need) && count > 0 && 8 * (512 * count - 2) >= need
    {
      var bytes := need + 16;
      if bytes < 65536 {
        bytes := 65536;
      }
      count := (bytes + 4095) / 4096;
    }

    // The second half of heap_grow.
    method AddRun(p: nat, count: nat)
      requires hhdm % 4096 == 0 && ListOk() && LiveOk(mem[..], live) && Tiled(free, live, frames)
      requires p > 0 && p % 4096 == 0 && count > 0 && p / 4096 + count <= mem.Length / 512
      requires FrameRange(p / 4096, count) !! frames
      modifies this`freeHead, this`free, this`frames, mem
      ensures ListOk() && LiveOk(mem[..], live) && Tiled(free, live, frames)
      ensures frames == old(frames) + FrameRange(p / 4096, count)
      ensures Cover(free) == Cover(old(free)) + FrameWords(FrameRange(p / 4096, count))
      ensures OnlyIn(old(mem[..]), mem[..], Cover(free))
    {
      ghost var run := FrameRange(p / 4096, count);
      ghost var blk := RunBlock(p / 4096, count);
      RunBlockWords(p / 4096, count);
      FreshRunDisjoint(free, live, frames, run);
      var b := p + hhdm;
      ghost var m := mem[..];
      mem[(b - hhdm) / 8] := count * 4096 - 16;
      assert blk.at in Words(blk) by { assert Occupies(blk, blk.at); }
      LinkedKept(m, mem[..], Words(blk), hhdm, freeHead, free);
      LiveOkKept(m, mem[..], Words(blk), live);
      ghost var m1 := mem[..];
      FreeInsert(b, blk);
      OnlyInTrans(m, m1, mem[..], Words(blk), Cover(free));
      LiveOkKept(m1, mem[..], Cover(free), live);
      TileGrow(old(free), live, frames, free, run);
      frames := frames + run;
    }

    /** kheap_init: an empty list, then one growth for 64 KiB. */
    method Init() returns (ok: bool, ghost phys: nat)
      requires hhdm % 4096 == 0 && hhdm + 8 * mem.Length <= TWO64
      requires pmm.Valid() && (mem as object) != pmm.bitmap && 512 * pmm.frameCount <= mem.Length
      modifies this`freeHead, this`free, this`live, this`frames, mem, pmm, pmm.bitmap
      ensures Valid() && pmm.bitmap == old(pmm.bitmap) && live == {}
      ensures ok <==> phys != 0
      ensures AllocStep(old(pmm.view), GrowFrames(65536), phys, pmm.view)
      ensures !ok ==> free == [] && frames == {} && mem[..] == old(mem[..])
      ensures ok ==> free == [RunBlock(phys / 4096, GrowFrames(65536))]
      ensures frames == if ok then FrameRange(phys / 4096, GrowFrames(65536)) else {}
      ensures OnlyFrames(old(mem[..]), mem[..], frames)
    {
      hide Valid, AllocStep, OnlyFrames, OnlyIn, FrameWords, Canonical, RunBlock;
      Reset();
      ghost var m := mem[..];
      ok, phys := HeapGrow(65536);
      ValidFacts();
      FreeInHeap(m, mem[..], free, live, frames);
      if ok {
        RunBlockWords(phys / 4096, GrowFrames(65536));
        SingleRunList(free, RunBlock(phys / 4096, GrowFrames(65536)));
      }
    }

    lemma ValidFacts()
      requires Valid()
      ensures Canonical(free) && Tiled(free, live, frames)
      ensures pmm.Valid() && (mem as object) != pmm.bitmap && 512 * pmm.frameCount <= mem.Length
      ensures Inv(pmm.view) && pmm.frameCount == pmm.view.frameCount && frames <= pmm.view.held
    {
    }

    // The list becomes empty.
    method Reset()
      requires hhdm % 4096 == 0 && hhdm + 8 * mem.Length <= TWO64
      requires pmm.Valid() && (mem as object) != pmm.bitmap && 512 * pmm.frameCount <= mem.Length
      modifies this`freeHead, this`free, this`live, this`frames
      ensures Valid() && freeHead == 0 && free == [] && live == {} && frames == {}
    {
      EmptyTiling();
      freeHead, free, live, frames := 0, [], {}, {};
    }

    // The search loop of kmalloc: the first block that is large enough.
    method FindFit(size: nat) returns (prev: nat, b: nat, ghost k: nat)
      requires ListOk() && size % 16 == 0
      ensures b == 0 ==> NoneFits(free, size / 8)
      ensures b != 0 ==> FirstFit(free, k, size / 8) && b == Addr(hhdm, free[k].at)
      ensures b != 0 ==> prev == if k == 0 then 0 else Addr(hhdm, free[k - 1].at)
    {
      prev, b, k := 0, freeHead, 0;
      while b != 0
        invariant k <= |free| && b == Ptr(hhdm, free, k)
        invariant prev == if k == 0 then 0 else Addr(hhdm, free[k - 1].at)
        invariant forall i :: 0 <= i < k ==> free[i].words < size / 8
        decreases |free| - k
      {
        assert HeaderAt(mem[..], hhdm, free, k);
        if mem[(b - hhdm) / 8] >= size {
          return;
        }
        prev := b;
        b := mem[(b - hhdm) / 8 + 1];
        k := k + 1;
      }
    }

    // Points whatever led to block k, prev->next or the head, at target.
    method Relink(prev: nat, target: Word, ghost k: nat)
      requires k < |free| && (k > 0 ==> WellFormed(free[k - 1]) && free[k - 1].at + 1 < mem.Length)
      requires prev == if k == 0 then 0 else Addr(hhdm, free[k - 1].at)
      modifies this`freeHead, mem
      ensures mem[..] == RelinkMem(old(mem[..]), free, k, target)
      ensures freeHead == if k > 0 then old(freeHead) else target
    {
      ghost var m := mem[..];
      if prev != 0 {
        mem[(prev - hhdm) / 8 + 1] := target;
      } else {
        freeHead := target;
      }
      assert mem[..] == RelinkMem(m, free, k, target);
    }

    // Writes the two headers of a split.
    method WriteSplit(b: nat, size: nat, ghost k: nat, ghost words: nat) returns (rest: nat)
      requires k < |free| && b == Addr(hhdm, free[k].at) && End(free[k]) <= mem.Length
      requires hhdm + 8 * mem.Length <= TWO64
      requires size == 8 * words && Splits(free[k], words)
      requires mem[free[k].at] == 8 * free[k].words
      modifies mem
      ensures rest == Addr(hhdm, Rest(free[k], words).at)
      ensures mem[..] == SplitMem(old(mem[..]), free, k, words)
    {
      ghost var c := Rest(free[k], words);
      var i := (b - hhdm) / 8;
      rest := b + 16 + size;
      var r := (rest - hhdm) / 8;
      assert r == c.at;
      mem[r] := mem[i] - size - 16;
      mem[r + 1] := mem[i + 1];
      mem[i] := size;
    }

    // The split branch of kmalloc.
    method Split(prev: nat, b: nat, size: nat, ghost k: nat, ghost words: nat)
      requires ListOk() && k < |free| && b == Addr(hhdm, free[k].at)
      requires prev == if k == 0 then 0 else Addr(hhdm, free[k - 1].at)
      requires words > 0 && words % 2 == 0 && size == 8 * words && Splits(free[k], words)
      modifies this`freeHead, mem
      ensures Linked(mem[..], hhdm, freeHead, free[k := Rest(free[k], words)])
      ensures End(free[k]) <= mem.Length && mem[free[k].at] == 8 * words
      ensures OnlyIn(old(mem[..]), mem[..], Cover(free))
    {
      hide Linked, OnlyIn, Cover;
      ghost var m := mem[..];
      SplitLinked(m, hhdm, freeHead, free, k, words);
      TakenHeaderSplit(m, hhdm, free, k, words);
      var rest := WriteSplit(b, size, k, words);
      ghost var m1 := mem[..];
      Relink(prev, rest, k);
      assert mem[..] == RelinkMem(m1, free, k, rest);
      assert mem[..][free[k].at] == 8 * words;
    }

    // The whole-block branch of kmalloc.
    method Unlink(prev: nat, b: nat, ghost k: nat)
      requires ListOk() && k < |free| && b == Addr(hhdm, free[k].at)
      requires prev == if k == 0 then 0 else Addr(hhdm, free[k - 1].at)
      modifies this`freeHead, mem
      ensures Linked(mem[..], hhdm, freeHead, Remove(free, k))
      ensures End(free[k]) <= mem.Length && mem[free[k].at] == 8 * free[k].words
      ensures OnlyIn(old(mem[..]), mem[..], Cover(free))
    {
      hide Linked, OnlyIn, Cover, Remove;
      ghost var m := mem[..];
      UnlinkLinked(m, hhdm, freeHead, free, k);
      var next := mem[(b - hhdm) / 8 + 1];
      TakenHeaderWhole(m, hhdm, free, k, next);
      Relink(prev, next, k);
      assert mem[..][free[k].at] == 8 * free[k].words;
    }

    // The body of kmalloc's search loop once a block fits.
    method TakeBlock(prev: nat, b: nat, size: nat, ghost k: nat, ghost words: nat)
      requires Valid() && words > 0 && words % 2 == 0 && size == 8 * words && FirstFit(free, k, words)
      requires b == Addr(hhdm, free[k].at)
      requires prev == if k == 0 then 0 else Addr(hhdm, free[k - 1].at)
      modifies this`freeHead, this`free, this`live, mem
      ensures Valid()
      ensures free == AfterTake(old(free), k, words)
      ensures live == old(live) + {Taken(old(free)[k], words)} && Taken(old(free)[k], words) !in old(live)
      ensures OnlyIn(old(mem[..]), mem[..], Cover(old(free)))
    {
      ghost var m := mem[..];
      assert HeaderAt(m, hhdm, free, k);
      if mem[(b - hhdm) / 8] >= size + 16 + 16 {
        Split(prev, b, size, k, words);
      } else {
        Unlink(prev, b, k);
      }
      CommitTake(m, k, words);
    }

    ghost method CommitTake(m: Memory, k: nat, words: nat)
      requires hhdm % 4096 == 0 && hhdm + 8 * mem.Length <= TWO64 && PmmOk()
      requires Canonical(free) && FirstFit(free, k, words) && words > 0 && words % 2 == 0
      requires LiveOk(m, live) && Tiled(free, live, frames)
      requires Linked(mem[..], hhdm, freeHead, AfterTake(free, k, words))
      requires End(free[k]) <= mem.Length && mem[free[k].at] == 8 * Taken(free[k], words).words
      requires OnlyIn(m, mem[..], Cover(free))
      modifies this`free, this`live
      ensures Valid()
      ensures free == AfterTake(old(free), k, words)
      ensures live == old(live) + {Taken(old(free)[k], words)} && Taken(old(free)[k], words) !in old(live)
    {
      var blk := Taken(free[k], words);
      TakeMeaning(free, k, words);
      TakenIsNew(free, live, frames, blk);
      assert Cover(free) !! LiveWords(live);
      LiveOkKept(m, mem[..], Cover(free), live);
      LiveOkAdd(mem[..], live, blk);
      TileTake(free, live, frames, AfterTake(free, k, words), blk);
      free, live := AfterTake(free, k, words), live + {blk};
    }

    // One pass of kmalloc over the free list: take the first fit, if any.
    method TryFit(size: nat, ghost words: nat) returns (p: nat, ghost k: nat)
      requires Valid() && words > 0 && words % 2 == 0 && size == 8 * words
      modifies this`freeHead, this`free, this`live, mem
      ensures Valid()
      ensures p == 0 <==> NoneFits(old(free), words)
      ensures p == 0 ==> free == old(free) && live == old(live) && mem[..] == old(mem[..])
      ensures p != 0 ==> FirstFit(old(free), k, words) && free == AfterTake(old(free), k, words)
      ensures p != 0 ==> Placed(Outcome(old(free), k, 0), words, hhdm, p, old(live), live)
      ensures Untouched(old(mem[..]), mem[..], old(live)) && OnlyFrames(old(mem[..]), mem[..], frames)
    {
      hide Tiled, LiveOk, Linked, OnlyIn, FrameAllocator.Valid, OnlyFrames;
      OnlyFramesRefl(mem[..], frames);
      TiledDisjoint(free, live, frames);
      ghost var m := mem[..];
      var prev, b;
      prev, b, k := FindFit(size);
      if b == 0 {
        return 0, k;
      }
      TakeMeaning(free, k, words);
      PayloadAligned(hhdm, Taken(free[k], words));
      TakeBlock(prev, b, size, k, words);
      OnlyInLeavesLive(m, mem[..], Cover(old(free)), old(live));
      FreeInHeap(m, mem[..], old(free), old(live), frames);
      p := b + 16;
    }

    // heap_grow as kmalloc's search loop calls it, when no block fits.
    method GrowFor(size: nat, ghost words: nat) returns (ok: bool, ghost phys: nat)
      requires Valid() && size == 8 * words && words > 0 && size + 4111 < TWO64 && NoneFits(free, words)
      modifies this`freeHead, this`free, this`frames, mem, pmm, pmm.bitmap
      ensures Valid() && pmm.bitmap == old(pmm.bitmap)
      ensures ok ==> Searched(old(State()), words, free, phys, frames, pmm.view) && !NoneFits(free, words)
      ensures !ok ==> OutOfMemory(old(State()), words) && State() == old(State()) && mem[..] == old(mem[..])
      ensures Untouched(old(mem[..]), mem[..], live) && OnlyFrames(old(mem[..]), mem[..], frames)
      ensures old(frames) <= frames
    {
      hide Tiled, LiveOk, Linked, OnlyIn, Untouched, FrameAllocator.Valid, OnlyFrames;
      ghost var m := mem[..];
      ok, phys := HeapGrow(size);
      TiledDisjoint(free, live, frames);
      OnlyInLeavesLive(m, mem[..], Cover(free), live);
      FreeInHeap(m, mem[..], free, live, frames);
    }

    /** kmalloc: first fit, growing the heap at most once. It returns NULL for
        a nonzero size exactly when no free block fits and there is no run of
        free frames to grow by, and then nothing has changed. */
    method Kmalloc(size: nat) returns (p: nat, ghost o: Outcome)
      requires Valid() && Bounded(size)
      modifies this`freeHead, this`free, this`live, this`frames, mem, pmm, pmm.bitmap
      ensures Valid() && pmm.bitmap == old(pmm.bitmap)
      ensures p == 0 <==> size == 0 || OutOfMemory(old(State()), RequestWords(size))
      ensures p == 0 ==> State() == old(State()) && mem[..] == old(mem[..])
      ensures p != 0 ==> Served(old(State()), RequestWords(size), o, hhdm, p, State())
      ensures Untouched(old(mem[..]), mem[..], old(live)) && OnlyFrames(old(mem[..]), mem[..], frames)
    {
      hide AlignUp, RequestWords, Served, Searched, OutOfMemory, NoneFits, Placed, FirstFit, AfterTake, Valid,
           Untouched, OnlyFrames;
      o := Outcome([], 0, 0);
      ghost var (m0, s) := (mem[..], State());
      UntouchedRefl(m0, live);
      OnlyFramesRefl(m0, frames);
      if size == 0 {
        return 0, o;
      }
      AlignRequest(size);
      var asize := AlignUp(size, 16);
      ghost var words := RequestWords(size);
      ghost var phys := 0;
      if !NoneFits(free, words) {
        SearchedAsIs(s, words);
      }
      while true
        invariant Valid() && pmm.bitmap == old(pmm.bitmap) && live == s.live
        invariant if NoneFits(free, words) then State() == s && mem[..] == m0
                  else Searched(s, words, free, phys, frames, pmm.view)
        invariant Untouched(m0, mem[..], live) && OnlyFrames(m0, mem[..], frames)
        decreases if NoneFits(free, words) then 1 else 0
      {
        ghost var m, list := mem[..], free;
        ghost var k;
        p, k := TryFit(asize, words);
        UntouchedTrans(m0, m, mem[..], s.live);
        HeapWritesTrans(m0, m, mem[..], frames, frames);
        if p != 0 {
          o := Outcome(list, k, phys);
          FitServes(s, words, list, k, phys, hhdm, p, State());
          return;
        }
        ghost var (m1, frames1) := (mem[..], frames);
        var ok;
        ok, phys := GrowFor(asize, words);
        if !ok {
          return 0, o;
        }
        UntouchedTrans(m0, m1, mem[..], live);
        HeapWritesTrans(m0, m1, mem[..], frames1, frames);
      }
    }

    /** kfree: the block joins the free list, which stays canonical and covers
        exactly the block more; no live block is touched. */
    method Kfree(ptr: nat, ghost blk: Block)
      requires Valid()
      requires ptr != 0 ==> blk in live && ptr == Addr(hhdm, blk.at) + 16
      modifies this`freeHead, this`free, this`live, mem
      ensures Valid()
      ensures ptr == 0 ==> free == old(free) && live == old(live) && mem[..] == old(mem[..])
      ensures ptr != 0 ==> live == old(live) - {blk} && Cover(free) == Cover(old(free)) + Words(blk)
      ensures Untouched(old(mem[..]), mem[..], live) && OnlyFrames(old(mem[..]), mem[..], frames)
    {
      OnlyFramesRefl(mem[..], frames);
      if ptr == 0 {
        return;
      }
      ghost var m := mem[..];
      TiledDisjoint(free, live, frames);
      LiveWordsOf(live, blk);
      FreeInsert(ptr - 16, blk);
      TileFree(old(free), live, frames, free, blk);
      TiledDisjoint(free, live - {blk}, frames);
      LiveOkKept(m, mem[..], Cover(free), live - {blk});
      OnlyInLeavesLive(m, mem[..], Cover(free), live - {blk});
      FreeInHeap(m, mem[..], free, live - {blk}, frames);
      live := live - {blk};
    }

    /** kcalloc: NULL on overflow, otherwise kmalloc of the product with every
        requested byte zero. */
    method Kcalloc(n: nat, size: nat) returns (p: nat, ghost o: Outcome)
      requires Valid() && n < TWO64 && size < TWO64
      requires Total(n, size) >= TWO64 || Bounded(Total(n, size))
      modifies this`freeHead, this`free, this`live, this`frames, mem, pmm, pmm.bitmap
      ensures Valid() && pmm.bitmap == old(pmm.bitmap)
      ensures p == 0 <==> Total(n, size) >= TWO64 || Total(n, size) == 0
                          || OutOfMemory(old(State()), RequestWords(Total(n, size)))
      ensures p == 0 ==> State() == old(State()) && mem[..] == old(mem[..])
      ensures p != 0 ==> Served(old(State()), RequestWords(Total(n, size)), o, hhdm, p, State())
      ensures p != 0 ==> AllZero(mem[..], p - hhdm, Total(n, size))
      ensures Untouched(old(mem[..]), mem[..], old(live)) && OnlyFrames(old(mem[..]), mem[..], frames)
    {
      hide OnlyFrames, Untouched, Tiled, ListOk, LiveOk, PmmOk, AllZero, Searched, OutOfMemory, FirstFit,
           AfterTake;
      o := Outcome([], 0, 0);
      OnlyFramesRefl(mem[..], frames);
      UntouchedRefl(mem[..], live);
      if n != 0 {
        OverflowCheck(n, size, TWO64 - 1);
        if size > (TWO64 - 1) / n {
          return 0, o;
        }
      }
      var total := n * size;
      p, o := Kmalloc(total);
      if p != 0 {
        ghost var m := mem[..];
        ZeroBlock(p, total, BlockOf(o, RequestWords(total)), old(live), old(mem[..]));
        HeapWritesTrans(old(mem[..]), m, mem[..], frames, frames);
      }
    }

    // memset(p, 0, total) on a block that has just been handed out.
    method ZeroBlock(p: nat, total: nat, ghost b: Block, ghost others: set<Block>, ghost m0: Memory)
      requires Valid() && b in live && live - {b} == others && p == Addr(hhdm, b.at) + 16
      requires total <= 8 * b.words && Untouched(m0, mem[..], others)
      modifies mem
      ensures Valid() && AllZero(mem[..], p - hhdm, total) && Untouched(m0, mem[..], others)
      ensures OnlyFrames(old(mem[..]), mem[..], frames)
    {
      ghost var m := mem[..];
      Bytes.Memset(mem, p - hhdm, 0, total);
      assert OnlyIn(m, mem[..], Payload(b)) by {
        forall w: nat | w < |m| && !InPayload(b, w) ensures mem[..][w] == m[w] {
        }
      }
      PayloadWrite(m, mem[..], free, live, frames, b, hhdm, freeHead);
      PayloadInHeap(m, mem[..], free, live, frames, b);
      UntouchedTrans(m0, m, mem[..], others);
    }

    // memcpy between two live blocks, into the second one's payload.
    method CopyBlock(dst: nat, src: nat, n: nat, ghost to: Block, ghost from: Block)
      requires Valid() && to in live && from in live && to != from
      requires dst == Addr(hhdm, to.at) + 16 && src == Addr(hhdm, from.at) + 16
      requires n <= 8 * to.words && n <= 8 * from.words
      modifies mem
      ensures Valid() && Copied(mem[..], dst - hhdm, old(mem[..]), src - hhdm, n)
      ensures Untouched(old(mem[..]), mem[..], live - {to}) && OnlyFrames(old(mem[..]), mem[..], frames)
    {
      ghost var m := mem[..];
      assert Apart(to, from);
      Memcpy(mem, dst - hhdm, src - hhdm, n);
      assert OnlyIn(m, mem[..], Payload(to)) by {
        forall w: nat | w < |m| && !InPayload(to, w) ensures mem[..][w] == m[w] {
        }
      }
      PayloadWrite(m, mem[..], free, live, frames, to, hhdm, freeHead);
      PayloadInHeap(m, mem[..], free, live, frames, to);
    }

    /** krealloc. A block that is large enough stays; otherwise the contents
        move to a new block, which starts with the entire old payload, and the
        old block is freed; if that is impossible the old block stays live and
        nothing changes. */
    method Krealloc(ptr: nat, size: nat, ghost blk: Block) returns (p: nat, ghost o: Outcome)
      requires Valid() && Bounded(size)
      requires ptr != 0 ==> blk in live && ptr == Addr(hhdm, blk.at) + 16
      modifies this`freeHead, this`free, this`live, this`frames, mem, pmm, pmm.bitmap
      ensures Valid() && pmm.bitmap == old(pmm.bitmap)
      // krealloc(NULL, size) is kmalloc(size)
      ensures ptr == 0 && p != 0 ==> Served(old(State()), RequestWords(size), o, hhdm, p, State())
      // krealloc(ptr, 0) is kfree(ptr)
      ensures ptr != 0 && size == 0 ==> p == 0 && live == old(live) - {blk}
      ensures ptr != 0 && size == 0 ==> Cover(free) == Cover(old(free)) + Words(blk)
      // large enough already
      ensures ptr != 0 && size != 0 && blk.words >= RequestWords(size) ==>
                p == ptr && State() == old(State()) && mem[..] == old(mem[..])
      // moved, or out of memory
      ensures ptr != 0 && size != 0 && blk.words < RequestWords(size) ==>
                (p == 0 <==> OutOfMemory(old(State()), RequestWords(size)))
      ensures ptr == 0 ==> (p == 0 <==> size == 0 || OutOfMemory(old(State()), RequestWords(size)))
      ensures p == 0 && (ptr == 0 || size != 0) ==> State() == old(State()) && mem[..] == old(mem[..])
      ensures ptr != 0 && p != 0 && blk.words < RequestWords(size) ==>
                && Moved(old(State()), RequestWords(size), o, hhdm, p, State(), blk)
                && Carried(hhdm, old(mem[..]), ptr, mem[..], p, 8 * blk.words)
      ensures size == 0 ==> frames == old(frames) && pmm.view == old(pmm.view)
      ensures Untouched(old(mem[..]), mem[..], old(live) - {blk}) && OnlyFrames(old(mem[..]), mem[..], frames)
    {
      o := Outcome([], 0, 0);
      OnlyFramesRefl(mem[..], frames);
      UntouchedRefl(mem[..], live - {blk});
      if ptr == 0 {
        p, o := Kmalloc(size);
        LessUntouched(old(mem[..]), mem[..], old(live), blk);
        return;
      }
      if size == 0 {
        Kfree(ptr, blk);
        return 0, o;
      }
      p, o := Resize(ptr, size, blk);
    }

    // The rest of krealloc: keep the block, or move it.
    method Resize(ptr: nat, size: nat, ghost blk: Block) returns (p: nat, ghost o: Outcome)
      requires Valid() && Bounded(size) && size > 0
      requires blk in live && ptr == Addr(hhdm, blk.at) + 16
      modifies this`freeHead, this`free, this`live, this`frames, mem, pmm, pmm.bitmap
      ensures Valid() && pmm.bitmap == old(pmm.bitmap)
      ensures p == 0 || blk.words >= RequestWords(size) ==> State() == old(State()) && mem[..] == old(mem[..])
      ensures blk.words >= RequestWords(size) ==> p == ptr
      ensures blk.words < RequestWords(size) ==> (p == 0 <==> OutOfMemory(old(State()), RequestWords(size)))
      ensures blk.words < RequestWords(size) && p != 0 ==>
                && Moved(old(State()), RequestWords(size), o, hhdm, p, State(), blk)
                && Carried(hhdm, old(mem[..]), ptr, mem[..], p, 8 * blk.words)
      ensures Untouched(old(mem[..]), mem[..], old(live) - {blk}) && OnlyFrames(old(mem[..]), mem[..], frames)
    {
      o := Outcome([], 0, 0);
      OnlyFramesRefl(mem[..], frames);
      UntouchedRefl(mem[..], live - {blk});
      var oldSize := PayloadSize(ptr, blk);
      AlignRequest(size);
      if oldSize >= AlignUp(size, 16) {
        return ptr, o;
      }
      p, o := Move(ptr, size, oldSize, blk);
    }

    // The size field in front of a live payload.
    method PayloadSize(ptr: nat, ghost blk: Block) returns (size: nat)
      requires Valid() && blk in live && ptr == Addr(hhdm, blk.at) + 16
      ensures size == 8 * blk.words
    {
      size := mem[(ptr - 16 - hhdm) / 8];
    }

    // The move path of krealloc.
    method Move(ptr: nat, size: nat, oldSize: nat, ghost blk: Block) returns (p: nat, ghost o: Outcome)
      requires Valid() && Bounded(size) && size > 0
      requires blk in live && ptr == Addr(hhdm, blk.at) + 16
      requires oldSize == 8 * blk.words < 8 * RequestWords(size)
      modifies this`freeHead, this`free, this`live, this`frames, mem, pmm, pmm.bitmap
      ensures Valid() && pmm.bitmap == old(pmm.bitmap)
      ensures p == 0 <==> OutOfMemory(old(State()), RequestWords(size))
      ensures p == 0 ==> State() == old(State()) && mem[..] == old(mem[..])
      ensures p != 0 ==> Moved(old(State()), RequestWords(size), o, hhdm, p, State(), blk)
      ensures p != 0 ==> Carried(hhdm, old(mem[..]), ptr, mem[..], p, oldSize)
      ensures Untouched(old(mem[..]), mem[..], old(live) - {blk}) && OnlyFrames(old(mem[..]), mem[..], frames)
    {
      hide Tiled, Linked, FrameAllocator.Valid, Untouched, Copied, Searched, OutOfMemory, Canonical, OnlyFrames;
      ghost var (m0, s0) := (mem[..], State());
      p, o := Kmalloc(size);
      ghost var (m1, s1) := (mem[..], State());
      LessUntouched(m0, m1, s0.live, blk);
      if p == 0 {
        return;
      }
      ghost var to := BlockOf(o, RequestWords(size));
      OldBelowRequest(blk, size);
      CopyBlock(p, ptr, if oldSize < size then oldSize else size, to, blk);
      ghost var m2 := mem[..];
      Kfree(ptr, blk);
      ghost var m3 := mem[..];
      HeapWritesTrans(m0, m1, m2, frames, frames);
      HeapWritesTrans(m0, m2, m3, frames, frames);
      assert s1.live - {to} == s0.live && live == s0.live - {blk} + {to};
      MoveKeepsOthers(m0, m1, m2, m3, s0.live, blk, to);
      assert s0.live - {blk} - {to} == s0.live - {blk};
      MoveKeepsPayload(m0, m1, m2, m3, s0.live, blk, to, oldSize);
    }
  }
}
