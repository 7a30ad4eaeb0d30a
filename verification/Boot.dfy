/** What keeps the active address space safe while the allocators run: its
    tables are never free and never part of the heap. */
module Boot {
  import opened Machine
  import opened Frames
  import opened Pmm
  import opened HeapMemory
  import opened PageTables
  import opened Paging

  // Physical memory, the frame allocator's state, the heap's frames and the
  // frame of the active top-level table.
  datatype Snapshot = Snapshot(mem: Memory, view: Frames.State, heap: set<nat>, root: nat)

  // The table frames of the active address space.
  ghost function Active(s: Snapshot): set<nat> { Tables(s.mem, s.root, 4) }

  /** No active table is free, and none belongs to the heap. */
  ghost predicate Safe(s: Snapshot) {
    forall g :: g in Active(s) ==> InMemory(s.mem, g) && g !in s.view.free && g !in s.heap
  }

  // Frames that callers of the frame allocator hold for their own use.
  ghost function ClientFrames(s: Snapshot): set<nat> {
    s.view.held - s.heap - Active(s)
  }

  /** One call into the allocators, or a store by a caller into memory it
      holds: the heap only takes free frames, only frames that callers hold
      come back, and only heap and caller frames are written. */
  ghost predicate ServiceStep(s: Snapshot, s': Snapshot) {
    && s'.root == s.root
    && s'.heap <= s.heap + s.view.free
    && s'.view.free <= s.view.free + ClientFrames(s)
    && s'.view.held <= s.view.held + s.view.free
    && |s'.mem| == |s.mem|
    && forall w: nat :: w < |s.mem| && w / 512 !in s'.heap && w / 512 !in ClientFrames(s) ==> s'.mem[w] == s.mem[w]
  }

  /** s' is safe, has the same active tables as s, a tree if they were one, and
      translates every address alike. */
  ghost predicate SameSpace(s: Snapshot, s': Snapshot) {
    && Safe(s') && s'.root == s.root && Active(s') == Active(s)
    && (Tree(s'.mem, s.root, 4) <==> Tree(s.mem, s.root, 4))
    && SameWalks(s.mem, s.root, s'.mem, s.root, 4)
  }

  lemma ServiceKeepsSpace(s: Snapshot, s': Snapshot)
    requires Safe(s) && ServiceStep(s, s')
    ensures SameSpace(s, s')
  {
    forall g | g in Active(s) ensures SameFrame(s.mem, s'.mem, g) {
    }
    TablesFrame(s.mem, s'.mem, s.root, 4);
  }

  lemma SameSpaceTrans(s: Snapshot, s1: Snapshot, s2: Snapshot)
    requires SameSpace(s, s1) && SameSpace(s1, s2)
    ensures SameSpace(s, s2)
  {
    WalksTrans(s.mem, s.root, s1.mem, s.root, s2.mem, s.root, 4);
  }

  ghost predicate StepAt(states: seq<Snapshot>, i: nat) {
    i + 1 < |states| ==> ServiceStep(states[i], states[i + 1])
  }

  ghost predicate ServiceRun(states: seq<Snapshot>) {
    states != [] && forall i: nat :: StepAt(states, i)
  }

  /** Over every run of allocator calls and caller stores the active
      translation is the same for every address and its tables stay the same,
      never free and never part of the heap. */
  lemma {:induction false} ServiceRunKeepsSpace(states: seq<Snapshot>, i: nat)
    requires ServiceRun(states) && Safe(states[0]) && i < |states|
    ensures SameSpace(states[0], states[i])
  {
    hide ServiceStep, SameSpace, Safe;
    if i == 0 {
      SameSpaceRefl(states[0]);
    } else {
      assert StepAt(states, i - 1);
      ServiceRunKeepsSpace(states, i - 1);
      assert Safe(states[i - 1]) by { SameSpaceIsSafe(states[0], states[i - 1]); }
      ServiceKeepsSpace(states[i - 1], states[i]);
      SameSpaceTrans(states[0], states[i - 1], states[i]);
    }
  }

  lemma SameSpaceRefl(s: Snapshot)
    requires Safe(s)
    ensures SameSpace(s, s)
  {
  }

  lemma SameSpaceIsSafe(s: Snapshot, s': Snapshot)
    requires SameSpace(s, s')
    ensures Safe(s')
  {
  }

  /** No call of a run ever takes a frame of the active space. */
  lemma ActiveNeverHandedOut(states: seq<Snapshot>, i: nat)
    requires ServiceRun(states) && Safe(states[0]) && i + 1 < |states|
    ensures (states[i + 1].view.held - states[i].view.held) !! Active(states[0])
    ensures (states[i + 1].heap - states[i].heap) !! Active(states[0])
  {
    ServiceRunKeepsSpace(states, i);
    assert StepAt(states, i);
  }

  // ------------------------------------------------------------ boot

  /** What the Limine Boot Protocol promises: usable and reclaimable entries
      lie in memory below 2^52 and do not overlap, and the tables the
      bootloader runs on lie outside usable memory. */
  ghost predicate BootContract(regions: seq<Region>, m: Memory, root: nat) {
    && NoWrap(regions) && WellPlaced(regions)
    && (forall r :: r in regions && Tracked(r) ==>
          r.base + r.length <= 8 * |m| && r.base + r.length <= 0x10_0000_0000_0000)
    && |m| % 512 == 0
    && FramesOfKind(regions, USABLE) !! FramesOfKind(regions, BOOTLOADER_RECLAIMABLE)
    && (forall g :: g in Tables(m, root, 4) ==> InMemory(m, g) && g !in FramesOfKind(regions, USABLE))
  }

  // Some usable region can hold the bitmap.
  ghost predicate RoomForBitmap(regions: seq<Region>) {
    forall n: nat, bytes: nat :: SpansMemory(regions, n) && BitmapSize(bytes, n) ==>
      exists r :: r in regions && HasRoom(r, bytes)
  }

  lemma SpanInMemory(regions: seq<Region>, m: Memory, root: nat, n: nat)
    requires BootContract(regions, m, root) && SpansMemory(regions, n)
    ensures 512 * n <= |m| && n <= 0x100_0000_0000
  {
    if n > 0 {
      var r :| r in regions && Tracked(r) && r.base + r.length > (n - 1) * 4096;
    }
  }

  lemma BootTablesInUse(regions: seq<Region>, m: Memory, root: nat, v: Frames.State)
    requires BootContract(regions, m, root) && Inv(v) && v.managed == FramesOfKind(regions, USABLE)
    ensures TablesInUse(m, root, 4, v.free) && Tables(m, root, 4) !! v.managed
  {
  }

  // After the clone and the reclaim, before the heap: the clone's tables are
  // held, so they are neither free nor reclaimed.
  lemma ReclaimSparesClone(v0: Frames.State, v1: Frames.State, taken: set<nat>, frames: set<nat>)
    requires Inv(v1) && Claimed(v0, v1, taken) && frames !! v1.managed
    ensures taken !! ReclaimStep(v1, frames).free && taken <= ReclaimStep(v1, frames).held
  {
  }

  // kheap_init takes free frames and writes only there.
  lemma HeapInitKeepsTables(m: Memory, m': Memory, v: Frames.State, v': Frames.State, heap: set<nat>, root: nat)
    requires TablesInUse(m, root, 4, v.free)
    requires heap <= v.free && v'.free <= v.free && OnlyFrames(m, m', heap)
    ensures Safe(Snapshot(m', v', heap, root))
    ensures Tables(m', root, 4) == Tables(m, root, 4) && (Tree(m, root, 4) <==> Tree(m', root, 4))
    ensures SameWalks(m, root, m', root, 4)
  {
    forall g | g in Tables(m, root, 4) ensures SameFrame(m, m', g) {
    }
    TablesFrame(m, m', root, 4);
  }

  // heap_grow's allocation as a change of the frame sets.
  lemma AllocTakesFree(v: Frames.State, count: nat, phys: nat, v': Frames.State)
    requires AllocStep(v, count, phys, v')
    ensures v'.free <= v.free && v'.managed == v.managed && v'.frameCount == v.frameCount && v.held <= v'.held
    ensures phys != 0 ==> FrameRange(phys / 4096, count) <= v.free
  {
  }
}
