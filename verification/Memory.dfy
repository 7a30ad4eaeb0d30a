/** memory_init, and the allocator calls that follow it. */
module Memory {
  import opened Machine
  import opened Frames
  import opened Pmm
  import opened FreeList
  import opened HeapMemory
  import opened Tiling
  import opened Kalloc
  import opened PageEntry
  import opened PageTables
  import opened Paging
  import opened Boot
  import opened HeapRuns
  import opened MapSpec
  import opened SpaceRuns
  import Bytes

  class System {
    const mem: array<Word>
    const hhdm: nat
    const pmm: FrameAllocator
    const heap: Heap
    var cr3: Word

    constructor (mem: array<Word>, hhdm: nat, cr3: Word)
      ensures this.mem == mem && this.hhdm == hhdm && this.cr3 == cr3 && Wired()
      ensures fresh(pmm) && fresh(heap)
    {
      var p := new FrameAllocator();
      this.mem, this.hhdm, this.cr3, this.pmm := mem, hhdm, cr3, p;
      heap := new Heap(mem, hhdm, p);
    }

    ghost predicate Wired()
    {
      heap.mem == mem && heap.hhdm == hhdm && heap.pmm == pmm
    }

    // The frame of the active top-level table, cr3 & PAGE_ADDR_MASK.
    function Root(): nat
      reads this
    {
      ChildFrame(cr3)
    }

    ghost function Snap(): Snapshot
      reads this, mem, pmm, heap
    {
      Snapshot(mem[..], pmm.view, heap.frames, Root())
    }

    ghost predicate Valid()
      reads this, mem, pmm, pmm.bitmap, heap
    {
      && Wired()
      && heap.Valid()
      && PmmFits(mem, pmm)
      && Safe(Snap())
    }

    /** memory_init: the frame allocator, the clone of the bootloader's address
        space, and only once the clone is active the reclaiming of the
        bootloader's memory, then the heap. Every address translates as before,
        and no active table is free or in the heap. The clone succeeds exactly
        when the usable frames suffice for it; if not, it has used them all up,
        nothing is reclaimed and the heap stays empty. The heap starts with the
        lowest run of 17 free frames, if there is one. The ghost results are the
        frame allocator's state after pmm_init and before kheap_init, and the
        address of that run. */
    method MemoryInit(regions: seq<Region>)
      returns (cloned: bool, ghost start: Frames.State, ghost v: Frames.State, ghost phys: nat)
      requires Wired() && hhdm % 4096 == 0 && hhdm + 8 * mem.Length <= TWO64
      requires BootContract(regions, mem[..], Root()) && RoomForBitmap(regions)
      modifies this`cr3, mem, pmm, heap
      ensures Valid() && heap.live == {}
      ensures SameWalks(old(mem[..]), old(Root()), mem[..], Root(), 4)
      ensures IsAfterInit(regions, start)
      ensures cloned <==> TableCount(old(mem[..]), old(Root()), 4) <= |start.free|
      ensures cloned ==> Tree(mem[..], Root(), 4) && Active(Snap()) <= pmm.view.held
      ensures cloned ==> pmm.view.managed == FramesOfKind(regions, USABLE)
                                             + (FramesOfKind(regions, BOOTLOADER_RECLAIMABLE) - {0})
      ensures !cloned ==> cr3 == old(cr3) && pmm.view.managed == FramesOfKind(regions, USABLE)
      ensures cloned ==> cr3 == 4096 * Root() && Active(Snap()) <= start.free && v.held == Active(Snap())
      ensures cloned ==> v.free == start.free - Active(Snap()) + (FramesOfKind(regions, BOOTLOADER_RECLAIMABLE) - {0})
      ensures !cloned ==> v.free == {} && v.held == start.free
      ensures AllocStep(v, 17, phys, pmm.view)
      ensures phys != 0 ==> heap.free == [Block(phys / 8, 8702)] && heap.frames == FrameRange(phys / 4096, 17)
      ensures phys == 0 ==> heap.free == [] && heap.frames == {}
      ensures !cloned ==> Starved(heap.State()) && heap.frames == {}
    {
      hide Tables, Tree, SameWalks, AllocStep, Valid, PmmFits, FramesOfKind, BootContract, RoomForBitmap, TablesInUse,
           Root, IsAfterInit, TableCount;
      ghost var (m0, root0) := (mem[..], Root());
      InitPmm(regions);
      start := pmm.view;
      cloned := CloneAndReclaim(regions);
      ghost var m1 := mem[..];
      v := pmm.view;
      phys := StartHeap();
      AllocTakesFree(v, 17, phys, pmm.view);
      if !cloned {
        NoFrameNoAlloc(v, 17, phys, pmm.view);
      }
      WalksTrans(m0, root0, m1, Root(), mem[..], Root(), 4);
    }

    // kheap_init
    method StartHeap() returns (ghost phys: nat)
      requires Wired() && hhdm % 4096 == 0 && hhdm + 8 * mem.Length <= TWO64
      requires PmmFits(mem, pmm) && TablesInUse(mem[..], Root(), 4, pmm.view.free)
      modifies mem, pmm, pmm.bitmap, heap
      ensures Valid() && heap.live == {}
      ensures AllocStep(old(pmm.view), 17, phys, pmm.view)
      ensures phys != 0 ==> heap.free == [Block(phys / 8, 8702)] && heap.frames == FrameRange(phys / 4096, 17)
      ensures phys == 0 ==> heap.free == [] && heap.frames == {}
      ensures Tables(mem[..], Root(), 4) == Tables(old(mem[..]), Root(), 4)
      ensures Tree(old(mem[..]), Root(), 4) <==> Tree(mem[..], Root(), 4)
      ensures SameWalks(old(mem[..]), Root(), mem[..], Root(), 4)
    {
      hide Tables, Tree, SameWalks, AllocStep, Heap.Valid, FrameAllocator.Valid, OnlyFrames, TablesInUse, Safe, Root,
           RunBlock;
      ghost var (m, v) := (mem[..], pmm.view);
      FitFacts(mem, pmm);
      var ok;
      ok, phys := heap.Init();
      heap.ValidFacts();
      InitialGrowth(v, phys, pmm.view);
      AllocTakesFree(v, 17, phys, pmm.view);
      HeapInitKeepsTables(m, mem[..], v, pmm.view, heap.frames, Root());
    }

    method InitPmm(regions: seq<Region>)
      requires Wired() && BootContract(regions, mem[..], Root()) && RoomForBitmap(regions)
      modifies pmm
      ensures PmmFits(mem, pmm) && fresh(pmm.bitmap)
      ensures pmm.view.managed == FramesOfKind(regions, USABLE) && SpansMemory(regions, pmm.frameCount)
      ensures TablesInUse(mem[..], Root(), 4, pmm.view.free) && IsAfterInit(regions, pmm.view)
      ensures pmm.view.held == {}
    {
      var found, bitmapPhys := pmm.Init(regions);
      SpanInMemory(regions, mem[..], Root(), pmm.frameCount);
      BootTablesInUse(regions, mem[..], Root(), pmm.view);
    }

    // vmm_clone_kernel_space, and if it succeeds vmm_load_space and
    // pmm_reclaim_bootloader
    method CloneAndReclaim(regions: seq<Region>) returns (cloned: bool)
      requires Wired() && PmmFits(mem, pmm) && BootContract(regions, mem[..], Root())
      requires pmm.view.managed == FramesOfKind(regions, USABLE) && SpansMemory(regions, pmm.frameCount)
      requires TablesInUse(mem[..], Root(), 4, pmm.view.free)
      modifies this`cr3, mem, pmm, pmm.bitmap
      ensures PmmFits(mem, pmm) && pmm.bitmap == old(pmm.bitmap)
      ensures TablesInUse(mem[..], Root(), 4, pmm.view.free)
      ensures SameWalks(old(mem[..]), old(Root()), mem[..], Root(), 4)
      ensures cloned <==> TableCount(old(mem[..]), old(Root()), 4) <= |old(pmm.view).free|
      ensures cloned ==> Tree(mem[..], Root(), 4) && Tables(mem[..], Root(), 4) <= pmm.view.held
      ensures cloned ==> pmm.view.managed == FramesOfKind(regions, USABLE)
                                             + (FramesOfKind(regions, BOOTLOADER_RECLAIMABLE) - {0})
      ensures !cloned ==> cr3 == old(cr3) && pmm.view.managed == FramesOfKind(regions, USABLE)
      ensures cloned ==> cr3 == 4096 * Root() && Tables(mem[..], Root(), 4) <= old(pmm.view).free
      ensures cloned ==> pmm.view.free == old(pmm.view).free - Tables(mem[..], Root(), 4)
                                          + (FramesOfKind(regions, BOOTLOADER_RECLAIMABLE) - {0})
      ensures cloned ==> pmm.view.held == old(pmm.view).held + Tables(mem[..], Root(), 4)
      ensures !cloned ==> pmm.view.free == {} && pmm.view.held == old(pmm.view).held + old(pmm.view).free
    {
      hide *;
      ghost var (m0, v0) := (mem[..], pmm.view);
      FitFacts(mem, pmm);
      var newPml4;
      ghost var taken;
      newPml4, taken := CloneTable(mem, pmm, Root(), 4);
      ghost var v1 := pmm.view;
      ClaimedFacts(v0, v1, taken);
      FitFacts(mem, pmm);
      cloned := newPml4 != 0;
      if cloned {
        LoadSpace(newPml4, v0, taken);
        Reclaim(regions, m0, old(Root()), v0, taken);
        ReclaimedFrames(v0, v1, taken, FramesOfKind(regions, BOOTLOADER_RECLAIMABLE), pmm.view);
        InUseFrom(mem[..], Root(), taken, pmm.view);
      } else {
        StillInUse(m0, mem[..], Root(), v0, pmm.view, taken);
      }
    }

    // vmm_load_space
    method LoadSpace(newPml4: nat, ghost v0: Frames.State, ghost taken: set<nat>)
      requires Inv(v0) && v0.frameCount <= 0x100_0000_0000 && taken <= v0.free
      requires newPml4 % 4096 == 0 && newPml4 / 4096 in taken
      modifies this`cr3
      ensures Root() == newPml4 / 4096 && cr3 == newPml4
    {
      HintMeaning(v0);
      AlignedAddress(newPml4);
      cr3 := newPml4;
    }

    // pmm_reclaim_bootloader, with the clone's frames held
    method Reclaim(regions: seq<Region>, ghost m0: Memory, ghost root0: nat, ghost v0: Frames.State,
                   ghost taken: set<nat>)
      requires PmmFits(mem, pmm) && BootContract(regions, m0, root0)
      requires pmm.view.managed == FramesOfKind(regions, USABLE) && SpansMemory(regions, pmm.frameCount)
      requires Inv(v0) && Claimed(v0, pmm.view, taken)
      modifies pmm, pmm.bitmap
      ensures PmmFits(mem, pmm) && pmm.bitmap == old(pmm.bitmap) && mem[..] == old(mem[..])
      ensures forall g :: g in taken ==> InMemory(mem[..], g) && g !in pmm.view.free && g in pmm.view.held
      ensures pmm.view == ReclaimStep(old(pmm.view), FramesOfKind(regions, BOOTLOADER_RECLAIMABLE))
      ensures pmm.view.managed == FramesOfKind(regions, USABLE)
                                  + (FramesOfKind(regions, BOOTLOADER_RECLAIMABLE) - {0})
    {
      hide FramesOfKind;
      TrackedFramesAreSpanned(regions, pmm.frameCount, BOOTLOADER_RECLAIMABLE);
      ReclaimSparesClone(v0, pmm.view, taken, FramesOfKind(regions, BOOTLOADER_RECLAIMABLE));
      ClaimedInMemory(mem[..], v0, taken);
      pmm.ReclaimBootloader(regions);
    }

    // ---------------------------------------------------------- afterwards

    /** kmalloc after boot: the heap call, as a step of a heap run, and a
        service step. */
    method Malloc(size: nat) returns (p: nat, ghost o: Outcome)
      requires Valid() && Bounded(size)
      modifies heap`freeHead, heap`free, heap`live, heap`frames, mem, pmm, pmm.bitmap
      ensures Valid() && ServiceStep(old(Snap()), Snap())
      ensures WorldStep(old(WorldOf(heap)), MallocCall(size, o, p), hhdm, WorldOf(heap))
      ensures p == Result(MallocCall(size, o, p))
    {
      hide Safe, ServiceStep, CallStep, Heap.ListOk, LiveOk, Tiled, FrameAllocator.Valid, Untouched, OnlyFrames, Root,
           MallocCall;
      ghost var (s, h) := (Snap(), heap.State());
      pmm.ValidFacts();
      p, o := HeapRuns.Malloc(heap, size);
      pmm.ValidFacts();
      MallocIsHeapCall(size, o, p);
      CallTakesFree(h, MallocCall(size, o, p), hhdm, heap.State());
      HeapService(s, Snap());
    }

    /** kcalloc after boot. */
    method Calloc(n: nat, size: nat) returns (p: nat, ghost o: Outcome)
      requires Valid() && n < TWO64 && size < TWO64
      requires Total(n, size) >= TWO64 || Bounded(Total(n, size))
      modifies heap`freeHead, heap`free, heap`live, heap`frames, mem, pmm, pmm.bitmap
      ensures Valid() && ServiceStep(old(Snap()), Snap())
      ensures WorldStep(old(WorldOf(heap)), CallocCall(n, size, o, p), hhdm, WorldOf(heap))
      ensures p == Result(CallocCall(n, size, o, p))
      ensures p != 0 ==> p >= hhdm && Bytes.AllZero(mem[..], p - hhdm, Total(n, size))
    {
      hide Safe, ServiceStep, CallStep, Heap.ListOk, LiveOk, Tiled, FrameAllocator.Valid, Untouched, OnlyFrames, Root,
           CallocCall, Total, Bytes.AllZero;
      ghost var (s, h) := (Snap(), heap.State());
      pmm.ValidFacts();
      p, o := HeapRuns.Calloc(heap, n, size);
      pmm.ValidFacts();
      CallocIsHeapCall(n, size, o, p);
      CallTakesFree(h, CallocCall(n, size, o, p), hhdm, heap.State());
      HeapService(s, Snap());
    }

    /** kfree after boot. */
    method Free(ptr: nat, ghost blk: Block)
      requires Valid()
      requires ptr != 0 ==> blk in heap.live && ptr == Addr(hhdm, blk.at) + 16
      modifies heap`freeHead, heap`free, heap`live, mem
      ensures Valid() && ServiceStep(old(Snap()), Snap())
      ensures WorldStep(old(WorldOf(heap)), FreeCall(ptr, blk), hhdm, WorldOf(heap))
    {
      hide Safe, ServiceStep, CallStep, Heap.ListOk, LiveOk, Tiled, FrameAllocator.Valid, Untouched, OnlyFrames, Root;
      ghost var s := Snap();
      HeapRuns.Free(heap, ptr, blk);
      HeapService(s, Snap());
    }

    /** krealloc after boot. */
    method Realloc(ptr: nat, size: nat, ghost blk: Block) returns (p: nat, ghost o: Outcome)
      requires Valid() && Bounded(size)
      requires ptr != 0 ==> blk in heap.live && ptr == Addr(hhdm, blk.at) + 16
      modifies heap`freeHead, heap`free, heap`live, heap`frames, mem, pmm, pmm.bitmap
      ensures Valid() && ServiceStep(old(Snap()), Snap())
      ensures WorldStep(old(WorldOf(heap)), ReallocCall(ptr, size, blk, o, p), hhdm, WorldOf(heap))
      ensures p == Result(ReallocCall(ptr, size, blk, o, p))
      ensures ptr != 0 && p != 0 && blk.words < RequestWords(size) ==>
                Carried(hhdm, old(mem[..]), ptr, mem[..], p, 8 * blk.words)
    {
      hide Safe, ServiceStep, CallStep, Heap.ListOk, LiveOk, Tiled, FrameAllocator.Valid, Untouched, OnlyFrames, Root,
           ReallocCall, Carried, RequestWords;
      ghost var (s, h) := (Snap(), heap.State());
      pmm.ValidFacts();
      p, o := HeapRuns.Realloc(heap, ptr, size, blk);
      pmm.ValidFacts();
      ReallocIsHeapCall(ptr, size, blk, o, p);
      CallTakesFree(h, ReallocCall(ptr, size, blk, o, p), hhdm, heap.State());
      HeapService(s, Snap());
    }

    /** alloc_frames (and alloc_frame) after boot: a service step, and for the
        heap a step by someone else. */
    method AllocFrames(count: nat) returns (phys: nat)
      requires Valid()
      modifies pmm, pmm.bitmap
      ensures Valid() && ServiceStep(old(Snap()), Snap())
      ensures AllocStep(old(pmm.view), count, phys, pmm.view)
      ensures WorldStep(old(WorldOf(heap)), Foreign(Alloc(count, phys)), hhdm, WorldOf(heap))
    {
      hide AllocStep, Safe, ServiceStep, Tiled, Heap.ListOk, LiveOk, FrameAllocator.Valid, Root, Untouched;
      ghost var s := Snap();
      pmm.ValidFacts();
      phys := TakeFrames(heap, count);
      pmm.ValidFacts();
      assert Snap() == s.(view := pmm.view);
      AllocService(s, count, phys, pmm.view);
    }

    /** free_frames (and free_frame) after boot, on frames the caller holds. */
    method FreeFrames(phys: nat, count: nat)
      requires Valid() && phys + count * 4096 <= TWO64
      requires forall f: nat :: f in FrameRange(phys / 4096, count) ==>
                 f == 0 || f >= pmm.frameCount || f in pmm.view.free || f in ClientFrames(Snap())
      modifies pmm, pmm.bitmap
      ensures Valid() && ServiceStep(old(Snap()), Snap())
      ensures pmm.view == FreeMany(old(pmm.view), phys / 4096, count)
      ensures WorldStep(old(WorldOf(heap)), Foreign(Frames.Free(phys / 4096, count)), hhdm, WorldOf(heap))
    {
      hide Safe, ServiceStep, Tiled, Heap.ListOk, LiveOk, Root, ClientFrames, FreeMany, MayFree, Inv,
           FrameAllocator.Valid, Untouched;
      ghost var s := Snap();
      pmm.ValidFacts();
      FreeService(s, phys / 4096, count);
      ReturnFrames(heap, phys, count);
      pmm.ValidFacts();
      assert Snap() == s.(view := pmm.view);
    }

    /** map_page on the active space: a map step, after which the system is as
        valid as before and the space still a tree. */
    method MapPage(va: Word, pa: Word, flags: Word) returns (mapped: bool, ghost taken: set<nat>)
      requires Valid() && Tree(mem[..], Root(), 4) && NoHuge(mem[..], Root(), 4, va)
      modifies mem, pmm, pmm.bitmap
      ensures Valid() && Tree(mem[..], Root(), 4) && PageEntryFor(pa, flags) < TWO64
      ensures MapStep(old(Snap()), va, PageEntryFor(pa, flags), mapped, taken, Snap())
    {
      hide Tree, Tables, SameWalks, MapsOnePage, Missing, NoHuge, Tiled, Canonical, FrameAllocator.Valid, Root,
           PageEntryFor;
      ghost var (s, m) := (Snap(), mem[..]);
      heap.ValidFacts();
      mapped, taken := Paging.MapPage(mem, pmm, Root(), va, pa, flags);
      ApartFromHeap(m, mem[..], heap.free, heap.live, heap.frames, Active(s) + taken, hhdm, heap.freeHead);
      MapKeepsTree(s, va, PageEntryFor(pa, flags), mapped, taken, Snap());
    }

    /** A store by a caller into a frame it holds. */
    method Store(w: nat, value: Word)
      requires Valid() && w < mem.Length && w / 512 in ClientFrames(Snap())
      modifies mem
      ensures Valid() && ServiceStep(old(Snap()), Snap())
      ensures mem[..] == old(mem[..])[w := value]
    {
      hide Safe, ServiceStep, ClientFrames, Tiled, LiveOk, Linked, Canonical, Root, FrameAllocator.Valid;
      ghost var s := Snap();
      StoreService(s, w, value);
      mem[w] := value;
      assert mem[..] == s.mem[w := value];
      ApartFromHeap(s.mem, mem[..], heap.free, heap.live, heap.frames, {w / 512}, hhdm, heap.freeHead);
    }

    /** A store by a caller into the payload of a block it was given. */
    method StorePayload(w: nat, value: Word, ghost blk: Block)
      requires Valid() && w < mem.Length && blk in heap.live && InPayload(blk, w)
      modifies mem
      ensures Valid() && ServiceStep(old(Snap()), Snap())
      ensures mem[..] == old(mem[..])[w := value]
      ensures WorldStep(old(WorldOf(heap)), Write(blk), hhdm, WorldOf(heap))
    {
      hide Safe, ServiceStep, CallStep, Heap.ListOk, LiveOk, Tiled, FrameAllocator.Valid, Untouched, OnlyFrames, Root;
      ghost var s := Snap();
      HeapRuns.Store(heap, w, value, blk);
      HeapService(s, Snap());
    }
  }

  lemma ClaimedFacts(v: Frames.State, v': Frames.State, taken: set<nat>)
    requires Claimed(v, v', taken)
    ensures taken <= v.free && v'.managed == v.managed && v'.frameCount == v.frameCount
    ensures v'.held == v.held + taken
  {
  }

  // The free frames after the clone and the reclaim.
  lemma ReclaimedFrames(v0: Frames.State, v1: Frames.State, taken: set<nat>, frames: set<nat>, v2: Frames.State)
    requires Claimed(v0, v1, taken) && v2 == ReclaimStep(v1, frames)
    ensures v2.free == v0.free - taken + (frames - {0}) && v2.held == v0.held + taken
  {
  }

  // kheap_init asks for 64 KiB and a header, in frames.
  lemma InitialGrowth(v: Frames.State, phys: nat, v': Frames.State)
    requires AllocStep(v, GrowFrames(65536), phys, v')
    ensures GrowFrames(65536) == 17 && AllocStep(v, 17, phys, v')
    ensures phys / 4096 > 0 || phys == 0
    ensures phys != 0 ==> RunBlock(phys / 4096, 17) == Block(phys / 8, 8702)
  {
    hide LowestRun, Take;
  }

  lemma InUseFrom(m: Memory, root: nat, taken: set<nat>, v: Frames.State)
    requires Tables(m, root, 4) == taken
    requires forall g :: g in taken ==> InMemory(m, g) && g !in v.free && g in v.held
    ensures TablesInUse(m, root, 4, v.free) && Tables(m, root, 4) <= v.held
  {
  }

  // After a failed clone the old space is untouched.
  lemma StillInUse(m: Memory, m': Memory, root: nat, v: Frames.State, v': Frames.State, taken: set<nat>)
    requires TablesInUse(m, root, 4, v.free) && Claimed(v, v', taken) && OnlyFrames(m, m', taken)
    ensures TablesInUse(m', root, 4, v'.free) && SameWalks(m, root, m', root, 4)
  {
    InUseKept(m, m', root, 4, v.free, taken);
  }

  lemma ClaimedInMemory(m: Memory, v: Frames.State, taken: set<nat>)
    requires Inv(v) && taken <= v.free && 512 * v.frameCount <= |m|
    ensures forall g :: g in taken ==> InMemory(m, g)
  {
  }

  // A successful allocation takes only free frames.
  lemma ServedTakesFree(s: HeapState, words: nat, o: Outcome, hhdm: nat, p: nat, s': HeapState)
    requires Served(s, words, o, hhdm, p, s')
    ensures s'.frames <= s.frames + s.view.free && s'.view.free <= s.view.free
    ensures s'.view.held <= s.view.held + s.view.free && s'.view.frameCount == s.view.frameCount
  {
    if NoneFits(s.free, words) {
      AllocTakesFree(s.view, GrowFrames(8 * words), o.phys, s'.view);
    }
  }

  lemma MovedTakesFree(s: HeapState, words: nat, o: Outcome, hhdm: nat, p: nat, s': HeapState, blk: Block)
    requires Moved(s, words, o, hhdm, p, s', blk)
    ensures s'.frames <= s.frames + s.view.free && s'.view.free <= s.view.free
    ensures s'.view.held <= s.view.held + s.view.free && s'.view.frameCount == s.view.frameCount
  {
    var mid: HeapState :| Served(s, words, o, hhdm, p, mid)
      && s' == mid.(free := s'.free, live := mid.live - {blk});
    ServedTakesFree(s, words, o, hhdm, p, mid);
  }

  lemma MallocIsHeapCall(size: nat, o: Outcome, p: nat)
    ensures !MallocCall(size, o, p).Foreign?
  {
  }

  lemma CallocIsHeapCall(n: nat, size: nat, o: Outcome, p: nat)
    ensures !CallocCall(n, size, o, p).Foreign?
  {
  }

  lemma ReallocIsHeapCall(ptr: nat, size: nat, blk: Block, o: Outcome, p: nat)
    ensures !ReallocCall(ptr, size, blk, o, p).Foreign?
  {
  }

  // A heap call takes only free frames, and returns none.
  lemma CallTakesFree(s: HeapState, c: Call, hhdm: nat, s': HeapState)
    requires CallStep(s, c, hhdm, s') && !c.Foreign?
    ensures s'.frames <= s.frames + s.view.free && s'.view.free <= s.view.free
    ensures s'.view.held <= s.view.held + s.view.free && s'.view.frameCount == s.view.frameCount
  {
    hide Served, Moved;
    match c
    case Allocate(words, o, p) =>
      if p != 0 { ServedTakesFree(s, words, o, hhdm, p, s'); }
    case Resize(words, o, p, b) =>
      if p != 0 { MovedTakesFree(s, words, o, hhdm, p, s', b); }
    case _ =>
  }

  lemma AllocService(s: Snapshot, count: nat, phys: nat, v': Frames.State)
    requires Safe(s) && AllocStep(s.view, count, phys, v')
    ensures ServiceStep(s, s.(view := v')) && Safe(s.(view := v'))
    ensures v'.frameCount == s.view.frameCount && s.view.held <= v'.held
  {
    AllocTakesFree(s.view, count, phys, v');
    ServiceKeepsSpace(s, s.(view := v'));
  }

  // A heap call is a service step.
  lemma HeapService(s: Snapshot, s': Snapshot)
    requires Safe(s) && s'.root == s.root
    requires s'.heap <= s.heap + s.view.free && s'.view.free <= s.view.free
    requires s'.view.held <= s.view.held + s.view.free
    requires OnlyFrames(s.mem, s'.mem, s'.heap)
    ensures ServiceStep(s, s') && Safe(s')
  {
    ServiceKeepsSpace(s, s');
  }

  lemma ReturnsClientFrames(s: Snapshot, start: nat, count: nat)
    requires Inv(s.view) && Safe(s)
    requires forall f: nat :: f in FrameRange(start, count) ==>
               f == 0 || f >= s.view.frameCount || f in s.view.free || f in ClientFrames(s)
    ensures forall f: nat :: f in FrameRange(start, count) ==> MayFree(s.view, f)
    ensures var v' := FreeMany(s.view, start, count);
            && v'.free <= s.view.free + ClientFrames(s) && v'.held <= s.view.held && v'.frameCount == s.view.frameCount
            && (forall f :: f in s.heap && f in s.view.held ==> f in v'.held)
  {
    FreeManyMeaning(s.view, start, count);
    forall f | f in s.view.held ensures f != 0 && f < s.view.frameCount && f !in s.view.free {
      assert f in s.view.managed;
    }
  }

  lemma FreeService(s: Snapshot, start: nat, count: nat)
    requires Inv(s.view) && Safe(s) && s.heap <= s.view.held
    requires forall f: nat :: f in FrameRange(start, count) ==>
               f == 0 || f >= s.view.frameCount || f in s.view.free || f in ClientFrames(s)
    ensures forall f: nat :: f in FrameRange(start, count) ==> MayFree(s.view, f) && f !in s.heap
    ensures var v' := FreeMany(s.view, start, count);
            && ServiceStep(s, s.(view := v')) && Safe(s.(view := v'))
            && v'.frameCount == s.view.frameCount && s.heap <= v'.held
  {
    ReturnsClientFrames(s, start, count);
    forall f | f in s.heap ensures f != 0 && f < s.view.frameCount && f !in s.view.free {
      assert f in s.view.managed;
    }
    ServiceKeepsSpace(s, s.(view := FreeMany(s.view, start, count)));
  }

  // Writing frames outside the heap disturbs nothing in it.
  lemma ApartFromHeap(m: Memory, m': Memory, free: seq<Block>, live: set<Block>, frames: set<nat>, written: set<nat>,
                      hhdm: nat, head: nat)
    requires Tiled(free, live, frames) && LiveOk(m, live) && Linked(m, hhdm, head, free)
    requires OnlyFrames(m, m', written) && written !! frames
    ensures LiveOk(m', live) && Linked(m', hhdm, head, free)
  {
    hide Linked, LiveOk, Cover, LiveWords;
    var ws := FrameWords(written);
    forall w: nat | w < |m| && w !in ws ensures m[w] == m'[w] {
      assert !InFrames(written, w);
    }
    assert ws !! FrameWords(frames);
    LinkedKept(m, m', ws, hhdm, head, free);
    LiveOkKept(m, m', ws, live);
  }

  lemma StoreService(s: Snapshot, w: nat, value: Word)
    requires Safe(s) && w < |s.mem| && w / 512 in ClientFrames(s)
    ensures var m := s.mem[w := value];
            && ServiceStep(s, s.(mem := m)) && Safe(s.(mem := m))
            && OnlyFrames(s.mem, m, {w / 512}) && w / 512 !in s.heap
  {
    hide Safe;
    ServiceKeepsSpace(s, s.(mem := s.mem[w := value]));
    SameSpaceIsSafe(s, s.(mem := s.mem[w := value]));
  }
}
