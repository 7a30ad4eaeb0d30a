/** Whole runs of heap calls, interleaved with whatever else the frame
    allocator is used for: what every run keeps, that nothing in it is left to
    chance, and that a block survives until it is given back. */
module HeapRuns {
  import opened Machine
  import opened FreeList
  import opened HeapMemory
  import opened Tiling
  import opened Bytes
  import opened Kalloc
  import Frames
  import Pmm

  /** The abstract heap invariant: the part of Kalloc.Heap.Valid that does not
      mention memory. */
  ghost predicate HeapInv(s: HeapState) {
    && Canonical(s.free)
    && Tiled(s.free, s.live, s.frames)
    && s.frames <= s.view.held && Frames.Inv(s.view)
  }

  // Calls, with the results they gave (p is 0 for NULL).
  datatype Call =
    | Allocate(words: nat, o: Outcome, p: nat)
    | Release(block: Block)
    | Resize(words: nat, o: Outcome, p: nat, block: Block)
    | Keep(p: nat)             // a heap call with nothing to do
    | Write(block: Block)      // a caller stores into a block it holds
    | Foreign(op: Frames.Op)   // someone else uses the frame allocator

  ghost predicate Released(s: HeapState, b: Block, s': HeapState) {
    && Canonical(s'.free) && Cover(s'.free) == Cover(s.free) + Words(b)
    && s' == s.(free := s'.free, live := s.live - {b})
  }

  // NULL exactly when out of memory, and then nothing has changed.
  ghost predicate Allocated(s: HeapState, words: nat, o: Outcome, hhdm: nat, p: nat, s': HeapState) {
    if p == 0 then OutOfMemory(s, words) && s' == s else Served(s, words, o, hhdm, p, s')
  }

  ghost predicate Resized(s: HeapState, words: nat, o: Outcome, hhdm: nat, p: nat, s': HeapState, b: Block) {
    if p == 0 then OutOfMemory(s, words) && s' == s else Moved(s, words, o, hhdm, p, s', b)
  }

  // Any step of the frame allocator that returns no frame of the heap.
  ghost predicate ForeignStep(s: HeapState, op: Frames.Op, s': HeapState) {
    && Frames.Step(s.view, op, s'.view) && Frames.Returned(op) !! s.frames
    && s' == s.(view := s'.view)
  }

  predicate Request(words: nat) { words > 0 && words % 2 == 0 }

  ghost predicate CallStep(s: HeapState, c: Call, hhdm: nat, s': HeapState) {
    match c
    case Allocate(words, o, p) => Request(words) && Allocated(s, words, o, hhdm, p, s')
    case Release(b) => b in s.live && Released(s, b, s')
    case Resize(words, o, p, b) =>
      Request(words) && b in s.live && b.words < words && Resized(s, words, o, hhdm, p, s', b)
    case Keep(_) => s' == s
    case Write(b) => b in s.live && s' == s
    case Foreign(op) => ForeignStep(s, op, s')
  }

  // The block a call gives up or writes.
  function Touched(c: Call): set<Block> {
    match c
    case Release(b) => {b}
    case Resize(_, _, p, b) => if p == 0 then {} else {b}
    case Write(b) => {b}
    case _ => {}
  }

  // The address a call returned.
  function Result(c: Call): nat {
    match c
    case Allocate(_, _, p) => p
    case Resize(_, _, p, _) => p
    case Keep(p) => p
    case Foreign(op) => if op.Alloc? then op.phys else 0
    case _ => 0
  }

  // Memory and heap after each call. A call writes no live block except the
  // one it gives up.
  datatype World = World(s: HeapState, m: Memory)

  ghost predicate WorldStep(w: World, c: Call, hhdm: nat, w': World) {
    CallStep(w.s, c, hhdm, w'.s) && Untouched(w.m, w'.m, w.s.live - Touched(c))
  }

  ghost predicate StepAt(ws: seq<World>, cs: seq<Call>, hhdm: nat, i: nat) {
    i < |cs| && i + 1 < |ws| ==> WorldStep(ws[i], cs[i], hhdm, ws[i + 1])
  }

  ghost predicate CallRun(ws: seq<World>, cs: seq<Call>, hhdm: nat) {
    |ws| == |cs| + 1 && forall i: nat :: StepAt(ws, cs, hhdm, i)
  }

  // ------------------------------------------------------------ the calls

  ghost function WorldOf(h: Heap): World
    reads h, h.mem, h.pmm
  {
    World(h.State(), h.mem[..])
  }

  lemma ValidIsInv(h: Heap)
    requires h.Valid()
    ensures HeapInv(h.State())
  {
    h.ValidFacts();
  }

  lemma RequestIs(size: nat)
    requires Bounded(size) && size > 0
    ensures Request(RequestWords(size))
  {
  }

  function MallocCall(size: nat, o: Outcome, p: nat): Call {
    if size == 0 then Keep(0) else Allocate(RequestWords(size), o, p)
  }

  function CallocCall(n: nat, size: nat, o: Outcome, p: nat): Call {
    if Total(n, size) >= TWO64 then Keep(0) else MallocCall(Total(n, size), o, p)
  }

  function FreeCall(ptr: nat, blk: Block): Call {
    if ptr == 0 then Keep(0) else Release(blk)
  }

  function ReallocCall(ptr: nat, size: nat, blk: Block, o: Outcome, p: nat): Call {
    if ptr == 0 then MallocCall(size, o, p)
    else if size == 0 then Release(blk)
    else if blk.words >= RequestWords(size) then Keep(ptr)
    else Resize(RequestWords(size), o, p, blk)
  }

  lemma NothingTouched(live: set<Block>)
    ensures live - {} == live
  {
  }

  /** kmalloc is a step of a run. */
  method Malloc(h: Heap, size: nat) returns (p: nat, ghost o: Outcome)
    requires h.Valid() && Bounded(size)
    modifies h`freeHead, h`free, h`live, h`frames, h.mem, h.pmm, h.pmm.bitmap
    ensures h.Valid() && h.pmm.bitmap == old(h.pmm.bitmap)
    ensures WorldStep(old(WorldOf(h)), MallocCall(size, o, p), h.hhdm, WorldOf(h))
    ensures p == Result(MallocCall(size, o, p))
    ensures OnlyFrames(old(h.mem[..]), h.mem[..], h.frames)
  {
    hide Heap.Valid, OutOfMemory, Served, Untouched, OnlyFrames, RequestWords, Request;
    NothingTouched(h.live);
    p, o := h.Kmalloc(size);
    if size > 0 {
      RequestIs(size);
    }
  }

  /** kcalloc is a step of a run, and its block is zero. */
  method Calloc(h: Heap, n: nat, size: nat) returns (p: nat, ghost o: Outcome)
    requires h.Valid() && n < TWO64 && size < TWO64
    requires Total(n, size) >= TWO64 || Bounded(Total(n, size))
    modifies h`freeHead, h`free, h`live, h`frames, h.mem, h.pmm, h.pmm.bitmap
    ensures h.Valid() && h.pmm.bitmap == old(h.pmm.bitmap)
    ensures WorldStep(old(WorldOf(h)), CallocCall(n, size, o, p), h.hhdm, WorldOf(h))
    ensures p == Result(CallocCall(n, size, o, p))
    ensures p != 0 ==> p >= h.hhdm && AllZero(h.mem[..], p - h.hhdm, Total(n, size))
    ensures OnlyFrames(old(h.mem[..]), h.mem[..], h.frames)
  {
    hide Heap.Valid, OutOfMemory, Served, Untouched, OnlyFrames, RequestWords, Request, AllZero, Total;
    NothingTouched(h.live);
    ghost var s := h.State();
    p, o := h.Kcalloc(n, size);
    if p != 0 {
      ServedPointer(s, RequestWords(Total(n, size)), o, h.hhdm, p, h.State());
    }
    if 0 < Total(n, size) < TWO64 {
      RequestIs(Total(n, size));
    }
  }

  lemma ServedPointer(s: HeapState, words: nat, o: Outcome, hhdm: nat, p: nat, s': HeapState)
    requires Served(s, words, o, hhdm, p, s')
    ensures p >= hhdm
  {
  }

  /** kfree is a step of a run. */
  method Free(h: Heap, ptr: nat, ghost blk: Block)
    requires h.Valid()
    requires ptr != 0 ==> blk in h.live && ptr == Addr(h.hhdm, blk.at) + 16
    modifies h`freeHead, h`free, h`live, h.mem
    ensures h.Valid()
    ensures WorldStep(old(WorldOf(h)), FreeCall(ptr, blk), h.hhdm, WorldOf(h))
    ensures OnlyFrames(old(h.mem[..]), h.mem[..], h.frames)
  {
    hide Heap.Valid, OnlyFrames, Cover, Words, Canonical, Untouched;
    NothingTouched(h.live);
    h.Kfree(ptr, blk);
    h.ValidFacts();
  }

  /** krealloc is a step of a run, and a moved block starts with the whole old
      payload. */
  method Realloc(h: Heap, ptr: nat, size: nat, ghost blk: Block) returns (p: nat, ghost o: Outcome)
    requires h.Valid() && Bounded(size)
    requires ptr != 0 ==> blk in h.live && ptr == Addr(h.hhdm, blk.at) + 16
    modifies h`freeHead, h`free, h`live, h`frames, h.mem, h.pmm, h.pmm.bitmap
    ensures h.Valid() && h.pmm.bitmap == old(h.pmm.bitmap)
    ensures WorldStep(old(WorldOf(h)), ReallocCall(ptr, size, blk, o, p), h.hhdm, WorldOf(h))
    ensures p == Result(ReallocCall(ptr, size, blk, o, p))
    ensures ptr != 0 && p != 0 && blk.words < RequestWords(size) ==>
              Carried(h.hhdm, old(h.mem[..]), ptr, h.mem[..], p, 8 * blk.words)
    ensures OnlyFrames(old(h.mem[..]), h.mem[..], h.frames)
  {
    hide Heap.Valid, WorldStep, MallocCall, OnlyFrames, RequestWords, Carried;
    if ptr == 0 {
      p, o := Malloc(h, size);
      ReallocOfNull(size, blk, o, p);
    } else {
      p, o := ReallocLive(h, ptr, size, blk);
    }
  }

  lemma ReallocOfNull(size: nat, blk: Block, o: Outcome, p: nat)
    ensures ReallocCall(0, size, blk, o, p) == MallocCall(size, o, p)
  {
  }

  // krealloc of a live block
  method ReallocLive(h: Heap, ptr: nat, size: nat, ghost blk: Block) returns (p: nat, ghost o: Outcome)
    requires h.Valid() && Bounded(size) && blk in h.live && ptr == Addr(h.hhdm, blk.at) + 16
    modifies h`freeHead, h`free, h`live, h`frames, h.mem, h.pmm, h.pmm.bitmap
    ensures h.Valid() && h.pmm.bitmap == old(h.pmm.bitmap)
    ensures WorldStep(old(WorldOf(h)), ReallocCall(ptr, size, blk, o, p), h.hhdm, WorldOf(h))
    ensures p == Result(ReallocCall(ptr, size, blk, o, p))
    ensures p != 0 && blk.words < RequestWords(size) ==>
              Carried(h.hhdm, old(h.mem[..]), ptr, h.mem[..], p, 8 * blk.words)
    ensures OnlyFrames(old(h.mem[..]), h.mem[..], h.frames)
  {
    hide Heap.Valid, OutOfMemory, Moved, Untouched, OnlyFrames, RequestWords, Request, Cover, Words, Canonical, Carried,
         WorldStep;
    ghost var w := WorldOf(h);
    p, o := h.Krealloc(ptr, size, blk);
    h.ValidFacts();
    if size == 0 {
      ReleaseIsStep(w, blk, h.hhdm, WorldOf(h));
    } else if blk.words >= RequestWords(size) {
      KeepIsStep(w, ptr, h.hhdm);
    } else {
      RequestIs(size);
      ResizeIsStep(w, RequestWords(size), o, p, blk, h.hhdm, WorldOf(h));
    }
  }

  lemma KeepIsStep(w: World, p: nat, hhdm: nat)
    ensures WorldStep(w, Keep(p), hhdm, w)
  {
  }

  lemma ReleaseIsStep(w: World, b: Block, hhdm: nat, w': World)
    requires b in w.s.live && Released(w.s, b, w'.s) && Untouched(w.m, w'.m, w.s.live - {b})
    ensures WorldStep(w, Release(b), hhdm, w')
  {
  }

  lemma ResizeIsStep(w: World, words: nat, o: Outcome, p: nat, b: Block, hhdm: nat, w': World)
    requires Request(words) && b in w.s.live && b.words < words && Resized(w.s, words, o, hhdm, p, w'.s, b)
    requires Untouched(w.m, w'.m, w.s.live - {b}) && (p == 0 ==> w'.m == w.m)
    ensures WorldStep(w, Resize(words, o, p, b), hhdm, w')
  {
  }

  /** A caller's store into a block it holds is a step of a run. */
  method Store(h: Heap, w: nat, value: Word, ghost blk: Block)
    requires h.Valid() && w < h.mem.Length && blk in h.live && InPayload(blk, w)
    modifies h.mem
    ensures h.Valid()
    ensures h.mem[..] == old(h.mem[..])[w := value]
    ensures WorldStep(old(WorldOf(h)), Write(blk), h.hhdm, WorldOf(h))
    ensures OnlyFrames(old(h.mem[..]), h.mem[..], h.frames)
  {
    hide Tiled, Canonical, Pmm.FrameAllocator.Valid, Untouched, OnlyFrames;
    ghost var m := h.mem[..];
    h.mem[w] := value;
    assert OnlyIn(m, h.mem[..], Payload(blk));
    PayloadWrite(m, h.mem[..], h.free, h.live, h.frames, blk, h.hhdm, h.freeHead);
    PayloadInHeap(m, h.mem[..], h.free, h.live, h.frames, blk);
  }

  /** alloc_frames by someone else is a step of a run. */
  method TakeFrames(h: Heap, count: nat) returns (phys: nat)
    requires h.Valid()
    modifies h.pmm, h.pmm.bitmap
    ensures h.Valid() && h.pmm.bitmap == old(h.pmm.bitmap)
    ensures WorldStep(old(WorldOf(h)), Foreign(Frames.Alloc(count, phys)), h.hhdm, WorldOf(h))
    ensures h.mem[..] == old(h.mem[..])
  {
    hide Frames.AllocStep, Tiled, Heap.ListOk, LiveOk, Pmm.FrameAllocator.Valid, Untouched;
    ghost var v := h.pmm.view;
    h.ValidFacts();
    UntouchedRefl(h.mem[..], h.live - {});
    phys := h.pmm.AllocFrames(count);
    h.pmm.ValidFacts();
    OthersKeepHeap(v, Frames.Alloc(count, phys), h.pmm.view, h.frames);
  }

  /** free_frames by someone else, of frames outside the heap, is a step of a
      run. */
  method ReturnFrames(h: Heap, phys: nat, count: nat)
    requires h.Valid() && phys + count * 4096 <= TWO64
    requires forall f: nat :: f in FrameRange(phys / 4096, count) ==> Frames.MayFree(h.pmm.view, f) && f !in h.frames
    modifies h.pmm, h.pmm.bitmap
    ensures h.Valid() && h.pmm.bitmap == old(h.pmm.bitmap)
    ensures WorldStep(old(WorldOf(h)), Foreign(Frames.Free(phys / 4096, count)), h.hhdm, WorldOf(h))
    ensures h.mem[..] == old(h.mem[..])
  {
    hide Frames.FreeMany, Tiled, Heap.ListOk, LiveOk, Pmm.FrameAllocator.Valid, Untouched, Frames.MayFree;
    ghost var v := h.pmm.view;
    h.ValidFacts();
    UntouchedRefl(h.mem[..], h.live - {});
    h.pmm.FreeFrames(phys, count);
    h.pmm.ValidFacts();
    OthersKeepHeap(v, Frames.Free(phys / 4096, count), h.pmm.view, h.frames);
  }

  // The heap's frames stay held, and the bitmap still spans the same frames.
  lemma OthersKeepHeap(v: Frames.State, op: Frames.Op, v': Frames.State, frames: set<nat>)
    requires Frames.Step(v, op, v') && Frames.Returned(op) !! frames && frames <= v.held
    ensures frames <= v'.held && v'.frameCount == v.frameCount
  {
    forall f | f in frames ensures f in v'.held {
      Frames.HeldStays(v, op, v', f);
    }
    match op
    case Free(start, count) => Frames.FreeManyMeaning(v, start, count);
    case _ =>
  }

  // ------------------------------------------------------------ invariants

  // Growing by a fresh run of frames keeps the partition.
  lemma SearchedKeepsInv(s: HeapState, words: nat, list: seq<Block>, phys: nat, frames': set<nat>, view': Frames.State)
    requires HeapInv(s) && Searched(s, words, list, phys, frames', view')
    ensures HeapInv(HeapState(list, s.live, frames', view'))
  {
    if NoneFits(s.free, words) {
      var n := GrowFrames(8 * words);
      var run := FrameRange(phys / 4096, n);
      Frames.AllocKeepsInv(s.view, n, phys, view');
      assert run !! s.frames;
      TileGrow(s.free, s.live, s.frames, list, run);
    }
  }

  lemma TakeKeepsHeapInv(s: HeapState, k: nat, words: nat, b: Block, s': HeapState)
    requires HeapInv(s) && FirstFit(s.free, k, words) && Request(words) && b == Taken(s.free[k], words)
    requires s' == s.(free := AfterTake(s.free, k, words), live := s.live + {b})
    ensures HeapInv(s')
  {
    TakeMeaning(s.free, k, words);
    TileTake(s.free, s.live, s.frames, s'.free, b);
  }

  lemma ServedKeepsInv(s: HeapState, words: nat, o: Outcome, hhdm: nat, p: nat, s': HeapState)
    requires HeapInv(s) && Request(words) && Served(s, words, o, hhdm, p, s')
    ensures HeapInv(s')
  {
    hide HeapInv, Searched, FirstFit, AfterTake;
    SearchedKeepsInv(s, words, o.list, o.phys, s'.frames, s'.view);
    var mid := HeapState(o.list, s.live, s'.frames, s'.view);
    TakeKeepsHeapInv(mid, o.k, words, BlockOf(o, words), s');
  }

  lemma ReleasedKeepsInv(s: HeapState, b: Block, s': HeapState)
    requires HeapInv(s) && b in s.live && Released(s, b, s')
    ensures HeapInv(s')
  {
    hide Canonical, Cover, Words, Tiled;
    TileFree(s.free, s.live, s.frames, s'.free, b);
  }

  lemma ForeignKeepsInv(s: HeapState, op: Frames.Op, s': HeapState)
    requires HeapInv(s) && ForeignStep(s, op, s')
    ensures HeapInv(s')
  {
    hide Canonical, Tiled, Frames.Inv, Frames.Step;
    Frames.StepKeepsInv(s.view, op, s'.view);
    OthersKeepHeap(s.view, op, s'.view, s.frames);
  }

  // A move is an allocation followed by the release of the old block.
  lemma MovedSplits(s: HeapState, words: nat, o: Outcome, hhdm: nat, p: nat, s': HeapState, b: Block)
    returns (mid: HeapState)
    requires Moved(s, words, o, hhdm, p, s', b) && b in s.live
    ensures Served(s, words, o, hhdm, p, mid) && b in mid.live && Released(mid, b, s')
  {
    mid :| Served(s, words, o, hhdm, p, mid)
           && Canonical(s'.free) && Cover(s'.free) == Cover(mid.free) + Words(b)
           && s' == mid.(free := s'.free, live := mid.live - {b});
  }

  lemma StepKeepsHeapInv(s: HeapState, c: Call, hhdm: nat, s': HeapState)
    requires HeapInv(s) && CallStep(s, c, hhdm, s')
    ensures HeapInv(s')
  {
    hide HeapInv, Served, Moved, Released, ForeignStep, OutOfMemory;
    match c
    case Allocate(words, o, p) =>
      if p != 0 {
        ServedKeepsInv(s, words, o, hhdm, p, s');
      }
    case Release(b) => ReleasedKeepsInv(s, b, s');
    case Resize(words, o, p, b) =>
      if p != 0 {
        var mid := MovedSplits(s, words, o, hhdm, p, s', b);
        ServedKeepsInv(s, words, o, hhdm, p, mid);
        ReleasedKeepsInv(mid, b, s');
      }
    case Keep(_) =>
    case Write(_) =>
    case Foreign(op) => ForeignKeepsInv(s, op, s');
  }

  /** In every state of every run the free list is canonical and free and live
      blocks tile the heap's frames exactly, whatever else the frame allocator
      is used for. */
  lemma {:induction false} RunKeepsHeapInv(ws: seq<World>, cs: seq<Call>, hhdm: nat, i: nat)
    requires CallRun(ws, cs, hhdm) && HeapInv(ws[0].s) && i < |ws|
    ensures HeapInv(ws[i].s)
  {
    hide HeapInv, CallStep;
    if i > 0 {
      RunKeepsHeapInv(ws, cs, hhdm, i - 1);
      assert StepAt(ws, cs, hhdm, i - 1);
      StepKeepsHeapInv(ws[i - 1].s, cs[i - 1], hhdm, ws[i].s);
    }
  }

  // ------------------------------------------------------------ survival

  lemma StepKeepsLive(s: HeapState, c: Call, hhdm: nat, s': HeapState, b: Block)
    requires CallStep(s, c, hhdm, s') && b in s.live && b !in Touched(c)
    ensures b in s'.live
  {
  }

  lemma UntouchedBlock(m: Memory, m': Memory, live: set<Block>, b: Block, w: nat)
    requires Untouched(m, m', live) && b in live && Occupies(b, w) && w < |m|
    ensures |m'| == |m| && m'[w] == m[w]
  {
    assert InLive(live, w);
  }

  /** A block stays live, with its contents, until it is given up or written. */
  lemma {:induction false} BlockSurvives(ws: seq<World>, cs: seq<Call>, hhdm: nat, i: nat, j: nat, b: Block, w: nat)
    requires CallRun(ws, cs, hhdm) && i <= j < |ws|
    requires b in ws[i].s.live && forall k :: i <= k < j ==> b !in Touched(cs[k])
    requires Occupies(b, w) && w < |ws[i].m|
    ensures b in ws[j].s.live && |ws[j].m| == |ws[i].m| && ws[j].m[w] == ws[i].m[w]
  {
    hide CallStep, Untouched, Occupies;
    if i < j {
      BlockSurvives(ws, cs, hhdm, i, j - 1, b, w);
      assert StepAt(ws, cs, hhdm, j - 1);
      StepKeepsLive(ws[j - 1].s, cs[j - 1], hhdm, ws[j].s, b);
      UntouchedBlock(ws[j - 1].m, ws[j].m, ws[j - 1].s.live - Touched(cs[j - 1]), b, w);
    }
  }

  /** A new block overlaps no block that is live at that moment. */
  lemma NewBlockIsApart(s: HeapState, words: nat, o: Outcome, hhdm: nat, p: nat, s': HeapState, c: Block)
    requires HeapInv(s) && Request(words) && Served(s, words, o, hhdm, p, s') && c in s.live
    ensures o.k < |o.list| && Apart(BlockOf(o, words), c)
  {
    hide Searched, FirstFit, AfterTake, Apart, Canonical;
    ServedKeepsInv(s, words, o, hhdm, p, s');
  }

  // ------------------------------------------------------------ determinism

  lemma SearchedDeterministic(s: HeapState, words: nat,
                              l1: seq<Block>, p1: nat, f1: set<nat>, v1: Frames.State,
                              l2: seq<Block>, p2: nat, f2: set<nat>, v2: Frames.State)
    requires HeapInv(s)
    requires Searched(s, words, l1, p1, f1, v1) && Searched(s, words, l2, p2, f2, v2)
    ensures l1 == l2 && f1 == f2 && v1 == v2
  {
    if NoneFits(s.free, words) {
      Frames.AllocDeterministic(s.view, GrowFrames(8 * words), p1, v1, p2, v2);
      CanonicalUnique(l1, l2);
    }
  }

  lemma FirstFitUnique(l: seq<Block>, j: nat, k: nat, words: nat)
    requires FirstFit(l, j, words) && FirstFit(l, k, words)
    ensures j == k
  {
  }

  // Whoever was served got a real pointer and was not out of memory.
  lemma ServedHasMemory(s: HeapState, words: nat, o: Outcome, hhdm: nat, p: nat, s': HeapState)
    requires Served(s, words, o, hhdm, p, s')
    ensures p != 0 && !OutOfMemory(s, words)
  {
  }

  /** Nothing about an allocation is left open: the state and the size fix the
      address returned and the next state. */
  lemma ServedDeterministic(s: HeapState, words: nat, hhdm: nat, o1: Outcome, p1: nat, s1: HeapState,
                            o2: Outcome, p2: nat, s2: HeapState)
    requires HeapInv(s) && Served(s, words, o1, hhdm, p1, s1) && Served(s, words, o2, hhdm, p2, s2)
    ensures p1 == p2 && s1 == s2
  {
    hide HeapInv, Searched, FirstFit, AfterTake;
    SearchedDeterministic(s, words, o1.list, o1.phys, s1.frames, s1.view, o2.list, o2.phys, s2.frames, s2.view);
    FirstFitUnique(o1.list, o1.k, o2.k, words);
  }

  lemma AllocatedDeterministic(s: HeapState, words: nat, hhdm: nat, o1: Outcome, p1: nat, s1: HeapState,
                               o2: Outcome, p2: nat, s2: HeapState)
    requires HeapInv(s) && Allocated(s, words, o1, hhdm, p1, s1) && Allocated(s, words, o2, hhdm, p2, s2)
    ensures p1 == p2 && s1 == s2
  {
    hide HeapInv, Served, OutOfMemory;
    if p1 != 0 { ServedHasMemory(s, words, o1, hhdm, p1, s1); }
    if p2 != 0 { ServedHasMemory(s, words, o2, hhdm, p2, s2); }
    if p1 != 0 && p2 != 0 {
      ServedDeterministic(s, words, hhdm, o1, p1, s1, o2, p2, s2);
    }
  }

  lemma ReleasedDeterministic(s: HeapState, b: Block, s1: HeapState, s2: HeapState)
    requires Released(s, b, s1) && Released(s, b, s2)
    ensures s1 == s2
  {
    CanonicalUnique(s1.free, s2.free);
  }

  lemma ResizedDeterministic(s: HeapState, words: nat, hhdm: nat, o1: Outcome, p1: nat, s1: HeapState,
                             o2: Outcome, p2: nat, s2: HeapState, b: Block)
    requires HeapInv(s) && b in s.live
    requires Resized(s, words, o1, hhdm, p1, s1, b) && Resized(s, words, o2, hhdm, p2, s2, b)
    ensures p1 == p2 && s1 == s2
  {
    hide HeapInv, Served, Moved, OutOfMemory, Released;
    var (mid1, mid2) := (s1, s2);
    if p1 != 0 { mid1 := MovedSplits(s, words, o1, hhdm, p1, s1, b); }
    if p2 != 0 { mid2 := MovedSplits(s, words, o2, hhdm, p2, s2, b); }
    AllocatedDeterministic(s, words, hhdm, o1, p1, mid1, o2, p2, mid2);
    if p1 != 0 && p2 != 0 {
      ReleasedDeterministic(mid1, b, s1, s2);
    }
  }

  lemma ForeignDeterministic(s: HeapState, c: Frames.Op, s1: HeapState, d: Frames.Op, s2: HeapState)
    requires HeapInv(s) && ForeignStep(s, c, s1) && ForeignStep(s, d, s2) && SameOp(c, d)
    ensures s1 == s2 && Result(Foreign(c)) == Result(Foreign(d))
  {
    if c.Alloc? {
      Frames.AllocDeterministic(s.view, c.count, c.phys, s1.view, d.phys, s2.view);
    }
  }

  // The same request, whatever it returned.
  predicate SameOp(c: Frames.Op, d: Frames.Op) {
    match c
    case Alloc(count, _) => d.Alloc? && d.count == count
    case _ => d == c
  }

  predicate SameRequest(c: Call, d: Call) {
    match c
    case Allocate(words, _, _) => d.Allocate? && d.words == words
    case Resize(words, _, _, b) => d.Resize? && d.words == words && d.block == b
    case Foreign(op) => d.Foreign? && SameOp(op, d.op)
    case _ => d == c
  }

  lemma StepDeterministic(s: HeapState, hhdm: nat, c: Call, s1: HeapState, d: Call, s2: HeapState)
    requires HeapInv(s) && SameRequest(c, d) && CallStep(s, c, hhdm, s1) && CallStep(s, d, hhdm, s2)
    ensures s1 == s2 && Result(c) == Result(d)
  {
    hide HeapInv, Allocated, Resized, Released, ForeignStep, SameOp;
    match c
    case Allocate(words, o, p) => AllocatedDeterministic(s, words, hhdm, o, p, s1, d.o, d.p, s2);
    case Release(b) => ReleasedDeterministic(s, b, s1, s2);
    case Resize(words, o, p, b) => ResizedDeterministic(s, words, hhdm, o, p, s1, d.o, d.p, s2, b);
    case Keep(_) =>
    case Write(_) =>
    case Foreign(op) => ForeignDeterministic(s, op, s1, d.op, s2);
  }

  /** Two runs with the same requests from the same state go through the same
      states and return the same addresses, NULLs included. */
  lemma {:induction false} RunDeterministic(ws: seq<World>, cs: seq<Call>, xs: seq<World>, ds: seq<Call>,
                                           hhdm: nat, i: nat)
    requires CallRun(ws, cs, hhdm) && CallRun(xs, ds, hhdm) && |cs| == |ds| && i < |ws|
    requires ws[0].s == xs[0].s && HeapInv(ws[0].s)
    requires forall k :: 0 <= k < |cs| ==> SameRequest(cs[k], ds[k])
    ensures ws[i].s == xs[i].s
    ensures forall k :: 0 <= k < i ==> Result(cs[k]) == Result(ds[k])
  {
    hide HeapInv, CallStep, SameRequest;
    if i > 0 {
      RunDeterministic(ws, cs, xs, ds, hhdm, i - 1);
      RunKeepsHeapInv(ws, cs, hhdm, i - 1);
      assert StepAt(ws, cs, hhdm, i - 1) && StepAt(xs, ds, hhdm, i - 1);
      assert SameRequest(cs[i - 1], ds[i - 1]);
      StepDeterministic(ws[i - 1].s, hhdm, cs[i - 1], ws[i].s, ds[i - 1], xs[i].s);
    }
  }

  // ------------------------------------------------------------ starvation

  // An empty heap, and no frame to grow by.
  predicate Starved(s: HeapState) { s.free == [] && s.live == {} && s.view.free == {} }

  /** Then every request is out of memory. */
  lemma NothingLeft(s: HeapState, words: nat)
    requires Starved(s)
    ensures OutOfMemory(s, words)
  {
    Frames.NoRunInEmpty(GrowFrames(8 * words));
  }

  predicate GivesFrames(c: Call) { c.Foreign? && !c.op.Alloc? }

  lemma StarvedStep(s: HeapState, c: Call, hhdm: nat, s': HeapState)
    requires Starved(s) && CallStep(s, c, hhdm, s') && !GivesFrames(c)
    ensures s' == s && (c.Allocate? || c.Foreign? ==> Result(c) == 0)
  {
    hide Served, OutOfMemory;
    match c
    case Allocate(words, o, p) =>
      if p != 0 {
        ServedHasMemory(s, words, o, hhdm, p, s');
        NothingLeft(s, words);
      }
    case Foreign(op) => Frames.NoFrameNoAlloc(s.view, op.count, op.phys, s'.view);
    case _ =>
  }

  /** And so it stays, every kmalloc and alloc_frames failing, until someone
      returns or reclaims frames. */
  lemma {:induction false} StarvedStays(ws: seq<World>, cs: seq<Call>, hhdm: nat, i: nat)
    requires CallRun(ws, cs, hhdm) && Starved(ws[0].s) && i < |ws|
    requires forall k :: 0 <= k < i ==> !GivesFrames(cs[k])
    ensures ws[i].s == ws[0].s
    ensures forall k :: 0 <= k < i && (cs[k].Allocate? || cs[k].Foreign?) ==> Result(cs[k]) == 0
  {
    hide CallStep, Starved;
    if i > 0 {
      StarvedStays(ws, cs, hhdm, i - 1);
      assert StepAt(ws, cs, hhdm, i - 1);
      StarvedStep(ws[i - 1].s, cs[i - 1], hhdm, ws[i].s);
    }
  }

  // ------------------------------------------------------------ undoing

  /** kmalloc followed by kfree of its result restores the list it searched:
      the list as it was, or, if the heap had to grow, the grown list. */
  lemma MallocThenFree(s: HeapState, words: nat, o: Outcome, hhdm: nat, p: nat, s1: HeapState, s2: HeapState)
    requires HeapInv(s) && Request(words) && Served(s, words, o, hhdm, p, s1)
    requires Released(s1, BlockOf(o, words), s2)
    ensures s2.free == o.list && s2.live == s.live
    ensures !NoneFits(s.free, words) ==> s2 == s
  {
    hide HeapInv, Searched, AfterTake, Cover, Words, Canonical;
    SearchedKeepsInv(s, words, o.list, o.phys, s1.frames, s1.view);
    InvIsCanonical(HeapState(o.list, s.live, s1.frames, s1.view));
    TakeThenFree(o.list, o.k, words, s2.free);
    if !NoneFits(s.free, words) {
      SearchedIsList(s, words, o, s1);
    }
  }

  lemma InvIsCanonical(s: HeapState)
    requires HeapInv(s)
    ensures Canonical(s.free)
  {
  }

  lemma SearchedIsList(s: HeapState, words: nat, o: Outcome, s': HeapState)
    requires Searched(s, words, o.list, o.phys, s'.frames, s'.view) && !NoneFits(s.free, words)
    ensures o.list == s.free && s'.frames == s.frames && s'.view == s.view
  {
  }
}
