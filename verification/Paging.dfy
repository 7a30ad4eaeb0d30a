/** clone_table and map_page, on page tables in physical memory. */
module Paging {
  import opened Machine
  import opened Bits
  import opened Frames
  import opened Pmm
  import opened PageEntry
  import opened HeapMemory
  import opened PageTables
  import opened CloneSpec
  import opened MapSpec
  import Bytes

  // The allocator manages frames of this memory, and every frame address fits
  // below bit 52.
  ghost predicate PmmFits(mem: array<Word>, pmm: FrameAllocator)
    reads pmm, pmm.bitmap
  {
    && pmm.Valid()
    && (mem as object) != pmm.bitmap
    && 512 * pmm.frameCount <= mem.Length
    && pmm.frameCount <= 0x100_0000_0000
  }

  /** The frames `taken` have moved from free to held; nothing was returned. */
  ghost predicate Claimed(v: Frames.State, v': Frames.State, taken: set<nat>) {
    && taken <= v.free
    && v' == v.(free := v.free - taken, held := v.held + taken, hint := v'.hint)
  }

  // Every table below f lies in memory and is not free.
  ghost predicate TablesInUse(m: Memory, f: nat, level: nat, free: set<nat>) {
    forall g :: g in Tables(m, f, level) ==> InMemory(m, g) && g !in free
  }

  lemma ClaimOne(v: Frames.State, phys: nat, v': Frames.State)
    requires AllocStep(v, 1, phys, v') && phys != 0
    ensures Claimed(v, v', {phys / 4096})
  {
    assert FrameRange(phys / 4096, 1) == {phys / 4096};
  }

  lemma ClaimMore(v: Frames.State, v1: Frames.State, v2: Frames.State, a: set<nat>, b: set<nat>)
    requires Claimed(v, v1, a) && Claimed(v1, v2, b)
    ensures Claimed(v, v2, a + b) && a !! b
  {
    assert v.free - a - b == v.free - (a + b);
    assert v.held + a + b == v.held + (a + b);
  }

  // Tables that are in use do not change when free frames are written.
  lemma InUseKept(m: Memory, m': Memory, f: nat, level: nat, free: set<nat>, written: set<nat>)
    requires 1 <= level <= 4
    requires TablesInUse(m, f, level, free) && OnlyFrames(m, m', written) && written <= free
    ensures Tables(m', f, level) == Tables(m, f, level) && (Tree(m, f, level) <==> Tree(m', f, level))
    ensures SameWalks(m, f, m', f, level)
    ensures forall g :: g in Tables(m, f, level) ==> SameFrame(m, m', g)
  {
    forall g | g in Tables(m, f, level) ensures SameFrame(m, m', g) {
    }
    TablesFrame(m, m', f, level);
  }

  lemma ChildInUse(m: Memory, f: nat, level: nat, i: nat, free: set<nat>)
    requires TablesInUse(m, f, level, free) && IsLink(m, f, level, i)
    ensures TablesInUse(m, Child(m, f, i), level - 1, free)
  {
    SubtablesIn(m, f, level, i);
  }

  // What the loop of clone_table knows after i entries.
  ghost predicate CloneLoop(m0: Memory, m: Memory, v0: Frames.State, v: Frames.State, src: nat, d: nat, level: nat,
                            i: nat, subs: seq<set<nat>>, taken: set<nat>)
    requires 1 <= level <= 4
  {
    && |subs| == i <= 512 && InMemory(m, d)
    && Claimed(v0, v, taken)
    && taken == {d} + Union(subs) && d !in Union(subs)
    && OnlyFrames(m0, m, taken)
    && EntriesDone(m, d, level, m0, src, subs)
  }

  // Writing frames `sub` and then entry i of d keeps the entries before i and
  // every frame in u.
  lemma StoreKeeps(m: Memory, m': Memory, d: nat, i: nat, e: Word, sub: set<nat>, u: set<nat>)
    requires OnlyFrames(m, m', sub) && d !in sub && sub !! u && d !in u
    requires i < 512 && 512 * d + i < |m|
    ensures var m2 := m'[512 * d + i := e];
            && OnlyFrames(m', m2, {d})
            && (forall w: nat :: 512 * d <= w < 512 * d + i && w < |m| ==> m2[w] == m[w])
            && (forall g :: g in u ==> SameFrame(m, m2, g))
  {
    assert (512 * d + i) / 512 == d;
  }

  // Storing entry i of the clone, once what it leads to is finished.
  lemma StoreEntry(m0: Memory, m: Memory, v0: Frames.State, v: Frames.State, src: nat, d: nat, level: nat,
                   i: nat, subs: seq<set<nat>>, m': Memory, v': Frames.State, sub: set<nat>, e: Word)
    requires 1 <= level <= 4 && i < 512
    requires CloneLoop(m0, m, v0, v, src, d, level, i, subs, {d} + Union(subs))
    requires Claimed(v, v', sub) && OnlyFrames(m, m', sub)
    requires EntryDone(m'[512 * d + i := e], d, level, i, m0, src, sub)
    ensures CloneLoop(m0, m'[512 * d + i := e], v0, v', src, d, level, i + 1, subs + [sub],
                      {d} + Union(subs) + sub)
  {
    var m2 := m'[512 * d + i := e];
    var u := Union(subs);
    var taken := {d} + u;
    ClaimMore(v0, v, v', taken, sub);
    StoreKeeps(m, m', d, i, e, sub, u);
    OnlyFramesTrans(m0, m, m', taken, sub);
    OnlyFramesTrans(m0, m', m2, taken + sub, {d});
    assert taken + sub + {d} == taken + sub;
    EntriesDoneKept(m, m2, d, level, m0, src, subs);
    EntriesDoneAdd(m2, d, level, m0, src, subs, sub);
    assert {d} + Union(subs + [sub]) == taken + sub;
  }

  // An absent entry becomes 0; a leaf is copied.
  function PlainValue(e: Word): Word {
    if And(e, PAGE_PRESENT) == 0 then 0 else e
  }

  // The branches of the loop body, for entry i of src.
  lemma EntryCases(m0: Memory, m: Memory, src: nat, d: nat, level: nat, i: nat, e: Word)
    requires 1 <= level <= 4 && i < 512 && InMemory(m0, src) && InMemory(m, d) && e == Entry(m0, src, i)
    ensures 512 * d + i < |m|
    ensures if And(e, PAGE_PRESENT) == 0 || IsLeaf(e, level)
            then EntryDone(m[512 * d + i := PlainValue(e)], d, level, i, m0, src, {}) && !IsLink(m0, src, level, i)
            else IsLink(m0, src, level, i) && level > 1
  {
  }

  lemma LinkEntry(m0: Memory, m1: Memory, m: Memory, src: nat, d: nat, level: nat, i: nat, child: Word, sub: set<nat>)
    requires 1 <= level <= 4 && IsLink(m0, src, level, i) && InMemory(m, d) && d !in sub
    requires child % 4096 == 0 && child < 0x10_0000_0000_0000
    requires Tables(m, child / 4096, level - 1) == sub && Tree(m, child / 4096, level - 1)
    requires SameWalks(m0, Child(m0, src, i), m1, Child(m0, src, i), level - 1)
    requires SameWalks(m1, Child(m0, src, i), m, child / 4096, level - 1)
    ensures Or(child, FlagsOf(Entry(m0, src, i))) < TWO64
    ensures EntryDone(m[512 * d + i := Relocated(child, Entry(m0, src, i))], d, level, i, m0, src, sub)
  {
    hide Tables, Tree, Relocated, FlagsOf, AddrOf, SameWalks, Walk, SameFrame;
    var e := Entry(m0, src, i);
    LinkedChild(m0, m, src, d, level, i, child);
    var m' := m[512 * d + i := Relocated(child, e)];
    forall g | g in sub ensures SameFrame(m, m', g) {
      EntryOutside(m, d, i, Relocated(child, e), g);
    }
    TablesFrame(m, m', child / 4096, level - 1);
    WalksTrans(m0, Child(m0, src, i), m1, Child(m0, src, i), m, child / 4096, level - 1);
    WalksTrans(m0, Child(m0, src, i), m, child / 4096, m', child / 4096, level - 1);
  }

  // The entry a clone stores for a link is a link to the child's clone.
  lemma LinkedChild(m0: Memory, m: Memory, src: nat, d: nat, level: nat, i: nat, child: Word)
    requires 1 <= level <= 4 && IsLink(m0, src, level, i) && InMemory(m, d)
    requires child % 4096 == 0 && child < 0x10_0000_0000_0000
    ensures Or(child, FlagsOf(Entry(m0, src, i))) < TWO64
    ensures var e := Entry(m0, src, i);
            var m' := m[512 * d + i := Relocated(child, e)];
            && IsLink(m', d, level, i) && Child(m', d, i) == child / 4096
            && Entry(m', d, i) == Relocated(child, e)
            && FlagsOf(Entry(m', d, i)) == FlagsOf(e) && Present(Entry(m', d, i)) == Present(e)
  {
    RelocatedEntry(child, Entry(m0, src, i));
  }

  lemma EntryOutside(m: Memory, d: nat, i: nat, e: Word, g: nat)
    requires InMemory(m, d) && i < 512 && g != d
    ensures SameFrame(m, m[512 * d + i := e], g)
  {
    assert (512 * d + i) / 512 == d;
  }

  lemma LoopFacts(m0: Memory, m: Memory, v0: Frames.State, v: Frames.State, src: nat, d: nat, level: nat,
                  i: nat, subs: seq<set<nat>>, taken: set<nat>)
    requires 1 <= level <= 4 && CloneLoop(m0, m, v0, v, src, d, level, i, subs, taken)
    ensures taken == {d} + Union(subs) && InMemory(m, d)
    ensures Claimed(v0, v, taken) && taken <= v0.free && d in taken && OnlyFrames(m0, m, taken)
    ensures d !in v.free && v.frameCount == v0.frameCount
  {
  }

  lemma NothingClaimed(v: Frames.State, m: Memory)
    ensures Claimed(v, v, {}) && OnlyFrames(m, m, {})
  {
    assert v.free - {} == v.free && v.held + {} == v.held;
  }

  lemma SourceEntry(m0: Memory, m: Memory, src: nat, level: nat, free: set<nat>, taken: set<nat>, i: nat)
    requires 1 <= level <= 4 && i < 512
    requires TablesInUse(m0, src, level, free) && OnlyFrames(m0, m, taken) && taken <= free
    ensures InMemory(m0, src) && 512 * src + i < |m| && m[512 * src + i] == Entry(m0, src, i)
  {
    assert src in Tables(m0, src, level);
    assert (512 * src + i) / 512 == src;
  }

  /** clone_table. On success the clone is a tree of freshly allocated frames
      with the same translation; the source and every other frame that was in
      use are unchanged. It succeeds exactly when there is a free frame for each
      table it visits. */
  method CloneTable(mem: array<Word>, pmm: FrameAllocator, src: nat, level: nat)
    returns (frame: nat, ghost taken: set<nat>)
    requires PmmFits(mem, pmm) && 1 <= level <= 4
    requires TablesInUse(mem[..], src, level, pmm.view.free)
    modifies mem, pmm, pmm.bitmap
    ensures PmmFits(mem, pmm) && pmm.bitmap == old(pmm.bitmap)
    ensures Claimed(old(pmm.view), pmm.view, taken)
    ensures OnlyFrames(old(mem[..]), mem[..], taken)
    ensures frame != 0 <==> TableCount(old(mem[..]), src, level) <= |old(pmm.view).free|
    ensures frame == 0 ==> pmm.view.free == {} && taken == old(pmm.view).free
    ensures frame == 0 ==> |taken| < TableCount(old(mem[..]), src, level)
    ensures frame != 0 ==> |taken| == TableCount(old(mem[..]), src, level)
    ensures frame != 0 ==> frame % 4096 == 0 && frame / 4096 in taken
    ensures frame != 0 ==> Tree(mem[..], frame / 4096, level)
    ensures frame != 0 ==> Tables(mem[..], frame / 4096, level) == taken
    ensures frame != 0 ==> SameWalks(old(mem[..]), src, mem[..], frame / 4096, level)
    ensures frame != 0 ==> ClonedTable(old(mem[..]), src, mem[..], frame / 4096, level)
    decreases level, 2
  {
    ghost var (m0, v0) := (mem[..], pmm.view);
    frame := pmm.AllocFrame();
    if frame == 0 {
      NothingClaimed(v0, m0);
      OutOfFrames(v0, pmm.view, {});
      return 0, {};
    }
    var d := frame / 4096;
    taken := {d};
    ghost var subs: seq<set<nat>> := [];
    StartClone(m0, v0, pmm.view, src, d, level, frame);
    assert src in Tables(m0, src, level);
    for i := 0 to 512
      invariant PmmFits(mem, pmm) && pmm.bitmap == old(pmm.bitmap)
      invariant CloneLoop(m0, mem[..], v0, pmm.view, src, d, level, i, subs, taken)
      invariant |taken| == 1 + CountBelow(m0, src, level, i)
    {
      var ok;
      ghost var sub;
      ok, sub := CloneEntry(mem, pmm, src, level, d, i, m0, v0, subs, taken);
      taken := taken + sub;
      if !ok {
        OutOfFrames(v0, pmm.view, taken);
        return 0, taken;
      }
      subs := subs + [sub];
    }
    CloneAssembled(mem[..], d, level, m0, src, subs);
    EntriesAreCloned(mem[..], d, level, m0, src, subs);
    LoopFacts(m0, mem[..], v0, pmm.view, src, d, level, 512, subs, taken);
    EnoughFrames(v0, pmm.view, taken);
  }

  lemma EnoughFrames(v: Frames.State, v': Frames.State, taken: set<nat>)
    requires Claimed(v, v', taken)
    ensures |taken| <= |v.free|
  {
    RemoveSize(v.free, taken);
  }

  lemma OutOfFrames(v: Frames.State, v': Frames.State, taken: set<nat>)
    requires Claimed(v, v', taken) && v'.free == {}
    ensures taken == v.free && v'.held == v.held + v.free
  {
    forall f | f in v.free ensures f in taken {
      assert f !in v'.free;
    }
  }

  lemma StartClone(m0: Memory, v0: Frames.State, v: Frames.State, src: nat, d: nat, level: nat, frame: nat)
    requires AllocStep(v0, 1, frame, v) && frame != 0 && d == frame / 4096
    requires 1 <= level <= 4 && InMemory(m0, d)
    ensures CloneLoop(m0, m0, v0, v, src, d, level, 0, [], {d})
  {
    ClaimOne(v0, frame, v);
  }

  // One iteration of the loop of clone_table.
  method CloneEntry(mem: array<Word>, pmm: FrameAllocator, src: nat, level: nat, d: nat, i: nat,
                    ghost m0: Memory, ghost v0: Frames.State, ghost subs: seq<set<nat>>, ghost taken: set<nat>)
    returns (ok: bool, ghost sub: set<nat>)
    requires PmmFits(mem, pmm) && 1 <= level <= 4 && i < 512
    requires TablesInUse(m0, src, level, v0.free) && |taken| == 1 + CountBelow(m0, src, level, i)
    requires CloneLoop(m0, mem[..], v0, pmm.view, src, d, level, i, subs, taken)
    modifies mem, pmm, pmm.bitmap
    ensures PmmFits(mem, pmm) && pmm.bitmap == old(pmm.bitmap)
    ensures ok ==> CloneLoop(m0, mem[..], v0, pmm.view, src, d, level, i + 1, subs + [sub], taken + sub)
    ensures ok ==> |taken + sub| == 1 + CountBelow(m0, src, level, i + 1)
    ensures !ok ==> pmm.view.free == {} && |taken + sub| < TableCount(m0, src, level)
    ensures !ok ==> Claimed(v0, pmm.view, taken + sub) && OnlyFrames(m0, mem[..], taken + sub)
    decreases level, 1
  {
    hide *;
    ghost var (m1, v1) := (mem[..], pmm.view);
    FitFacts(mem, pmm);
    LoopFacts(m0, m1, v0, v1, src, d, level, i, subs, taken);
    SourceEntry(m0, m1, src, level, v0.free, taken, i);
    NothingClaimed(v1, m1);
    assert taken + {} == taken;
    var e := mem[512 * src + i];
    sub := {};
    EntryCases(m0, m1, src, d, level, i, e);
    ok := true;
    if And(e, PAGE_PRESENT) == 0 || IsLeaf(e, level) {
      NoLinkCount(m0, src, level, i);
      StoreDst(mem, pmm, d, i, PlainValue(e), m0, m1, v0, v1, v1, src, level, subs, {});
    } else {
      ok, sub := CloneLink(mem, pmm, src, level, d, i, e, m0, v0, subs, taken);
    }
  }

  // dst[i] = e, once what the entry leads to is finished.
  method StoreDst(mem: array<Word>, pmm: FrameAllocator, d: nat, i: nat, e: Word, ghost m0: Memory, ghost m1: Memory,
                  ghost v0: Frames.State, ghost v1: Frames.State, ghost v2: Frames.State, ghost src: nat,
                  ghost level: nat, ghost subs: seq<set<nat>>, ghost sub: set<nat>)
    requires 1 <= level <= 4 && i < 512 && InMemory(mem[..], d)
    requires CloneLoop(m0, m1, v0, v1, src, d, level, i, subs, {d} + Union(subs))
    requires Claimed(v1, v2, sub) && OnlyFrames(m1, mem[..], sub)
    requires EntryDone(mem[..][512 * d + i := e], d, level, i, m0, src, sub)
    requires PmmFits(mem, pmm)
    modifies mem
    ensures PmmFits(mem, pmm)
    ensures CloneLoop(m0, mem[..], v0, v2, src, d, level, i + 1, subs + [sub], {d} + Union(subs) + sub)
  {
    hide CloneLoop, Claimed, OnlyFrames, EntryDone, Union, FrameAllocator.Valid;
    ghost var m2 := mem[..];
    mem[512 * d + i] := e;
    assert mem[..] == m2[512 * d + i := e];
    StoreEntry(m0, m1, v0, v1, src, d, level, i, subs, m2, v2, sub, e);
  }

  // The descent of clone_table into a child table.
  method CloneLink(mem: array<Word>, pmm: FrameAllocator, src: nat, level: nat, d: nat, i: nat, e: Word,
                   ghost m0: Memory, ghost v0: Frames.State, ghost subs: seq<set<nat>>, ghost taken: set<nat>)
    returns (ok: bool, ghost sub: set<nat>)
    requires PmmFits(mem, pmm) && 1 < level <= 4
    requires TablesInUse(m0, src, level, v0.free) && IsLink(m0, src, level, i) && e == Entry(m0, src, i)
    requires i < 512 && |taken| == 1 + CountBelow(m0, src, level, i)
    requires CloneLoop(m0, mem[..], v0, pmm.view, src, d, level, i, subs, taken)
    modifies mem, pmm, pmm.bitmap
    ensures PmmFits(mem, pmm) && pmm.bitmap == old(pmm.bitmap)
    ensures ok ==> CloneLoop(m0, mem[..], v0, pmm.view, src, d, level, i + 1, subs + [sub], taken + sub)
    ensures ok ==> |taken + sub| == 1 + CountBelow(m0, src, level, i + 1)
    ensures !ok ==> pmm.view.free == {} && |taken + sub| < TableCount(m0, src, level)
    ensures !ok ==> Claimed(v0, pmm.view, taken + sub) && OnlyFrames(m0, mem[..], taken + sub)
    decreases level, 0
  {
    hide *;
    ghost var (m1, v1) := (mem[..], pmm.view);
    LoopFacts(m0, m1, v0, v1, src, d, level, i, subs, taken);
    ChildNotFree(m0, m1, src, level, i, v0, v1, taken);
    FitFacts(mem, pmm);
    var child;
    assert ChildFrame(e) == Child(m0, src, i) by { ChildIs(m0, src, level, i, e); }
    child, sub := CloneTable(mem, pmm, ChildFrame(e), level - 1);
    ghost var (m2, v2) := (mem[..], pmm.view);
    ClaimMore(v0, v1, v2, taken, sub);
    DisjointSize(taken, sub);
    LinkCount(m0, src, level, i);
    OnlyFramesTrans(m0, m1, m2, taken, sub);
    if child == 0 {
      return false, sub;
    }
    ClaimedBound(v1, v2, sub, child);
    NotClaimed(m1, m2, v1, v2, sub, d);
    FitFacts(mem, pmm);
    LinkEntry(m0, m1, m2, src, d, level, i, child, sub);
    StoreDst(mem, pmm, d, i, Relocated(child, e), m0, m1, v0, v1, v2, src, level, subs, sub);
    ok := true;
  }

  lemma NoLinkCount(m: Memory, f: nat, level: nat, i: nat)
    requires i < 512 && !IsLink(m, f, level, i)
    ensures CountBelow(m, f, level, i + 1) == CountBelow(m, f, level, i)
  {
  }

  lemma LinkCount(m: Memory, f: nat, level: nat, i: nat)
    requires IsLink(m, f, level, i)
    ensures i < 512 && InMemory(m, f)
    ensures CountBelow(m, f, level, i + 1) == CountBelow(m, f, level, i) + TableCount(m, Child(m, f, i), level - 1)
    ensures 1 + CountBelow(m, f, level, i + 1) <= TableCount(m, f, level)
  {
    CountGrows(m, f, level, i + 1, 512);
  }

  lemma ChildIs(m: Memory, f: nat, level: nat, i: nat, e: Word)
    requires IsLink(m, f, level, i)
    ensures InMemory(m, f) && i < 512
    ensures e == Entry(m, f, i) ==> ChildFrame(e) == Child(m, f, i)
  {
  }

  lemma FitFacts(mem: array<Word>, pmm: FrameAllocator)
    requires PmmFits(mem, pmm)
    ensures Inv(pmm.view) && pmm.frameCount == pmm.view.frameCount <= 0x100_0000_0000
    ensures (mem as object) != pmm.bitmap
  {
  }

  lemma NotClaimed(m: Memory, m': Memory, v: Frames.State, v': Frames.State, sub: set<nat>, d: nat)
    requires Claimed(v, v', sub) && OnlyFrames(m, m', sub) && d !in v.free && InMemory(m, d)
    ensures d !in sub && InMemory(m', d)
  {
  }

  // The child table is unchanged so far, and still in use.
  lemma ChildNotFree(m0: Memory, m1: Memory, src: nat, level: nat, i: nat, v0: Frames.State, v1: Frames.State,
                     taken: set<nat>)
    requires 1 < level <= 4 && IsLink(m0, src, level, i) && TablesInUse(m0, src, level, v0.free)
    requires Claimed(v0, v1, taken) && OnlyFrames(m0, m1, taken)
    ensures TablesInUse(m1, Child(m0, src, i), level - 1, v1.free)
    ensures SameWalks(m0, Child(m0, src, i), m1, Child(m0, src, i), level - 1)
    ensures TableCount(m1, Child(m0, src, i), level - 1) == TableCount(m0, Child(m0, src, i), level - 1)
  {
    hide Tables, TableCount;
    ChildInUse(m0, src, level, i, v0.free);
    InUseKept(m0, m1, Child(m0, src, i), level - 1, v0.free, taken);
    CountFrame(m0, m1, Child(m0, src, i), level - 1);
  }

  lemma ClaimedBound(v: Frames.State, v': Frames.State, sub: set<nat>, child: nat)
    requires Inv(v) && Claimed(v, v', sub) && child / 4096 in sub && v.frameCount <= 0x100_0000_0000
    ensures child < 0x10_0000_0000_0000
  {
    assert child / 4096 in v.managed;
  }

  // ------------------------------------------------------------ sharing

  // Four frames: entries 0 and 1 of the top-level table in frame 0 lead to the
  // same, empty table in frame 1.
  function SharedSpace(): Memory {
    seq(2048, w requires 0 <= w < 2048 => if w < 2 then 4097 else 0)
  }

  lemma SharedEntries()
    ensures var m := SharedSpace();
            && |m| == 2048
            && (forall i: nat :: i < 512 ==> Entry(m, 0, i) == if i < 2 then 4097 else 0)
            && ZeroFrame(m, 1)
            && (forall i: nat :: IsLink(m, 0, 4, i) <==> i < 2)
            && Child(m, 0, 0) == 1 && Child(m, 0, 1) == 1
  {
    BitArithmetic(4097);
    BitArithmetic(0);
    AddrArithmetic(4097);
    hide Present, Huge, AddrOf;
  }

  lemma {:induction false} SharedCount(n: nat)
    requires n <= 512
    ensures CountBelow(SharedSpace(), 0, 4, n) == if n < 2 then n else 2
  {
    var m := SharedSpace();
    SharedEntries();
    ZeroTable(m, 1, 3);
    TreeCount(m, 1, 3);
    hide SharedSpace, Tree, Tables, TableCount;
    if n > 0 {
      SharedCount(n - 1);
    }
  }

  lemma SharedTables()
    ensures Tables(SharedSpace(), 0, 4) == {0, 1}
  {
    hide Present, Huge, AddrOf, SharedSpace;
    var m := SharedSpace();
    SharedEntries();
    ZeroTable(m, 1, 3);
    forall i: nat ensures Subtables(m, 0, 4, i) == if i < 2 then {1} else {} {
    }
    assert 1 in Subtables(m, 0, 4, 0);
  }

  /** Cloning a space that shares a table takes more frames than the space has
      tables: here it has two, two frames are free, and the clone fails. */
  lemma SharingNeedsMoreFrames()
    ensures var (m, v) := (SharedSpace(), Frames.State(4, {2, 3}, {}, {2, 3}, {0}, 0));
            && Inv(v) && TablesInUse(m, 0, 4, v.free)
            && Tables(m, 0, 4) == {0, 1} && |Tables(m, 0, 4)| == |v.free|
            && TableCount(m, 0, 4) == 3 > |v.free|
            && !Tree(m, 0, 4)
  {
    hide Tables, Tree, CountBelow;
    SharedTables();
    SharedCount(512);
    TreeCount(SharedSpace(), 0, 4);
  }

  // ------------------------------------------------------------ map_page

  /** What holds while map_page descends. */
  ghost predicate Descent(m0: Memory, m: Memory, v0: Frames.State, v: Frames.State, root: nat, va: Word, t: nat,
                          l: nat, taken: set<nat>)
    requires 1 <= l <= 4
  {
    && Reached(m0, m, root, va, t, l, taken)
    && Claimed(v0, v, taken)
    && OnlyFrames(m0, m, Tables(m0, root, 4) + taken)
    && TablesInUse(m, root, 4, v.free)
    && |taken| + Missing(m, t, l, va) == Missing(m0, root, 4, va)
  }

  lemma StartDescent(m0: Memory, v0: Frames.State, root: nat, va: Word)
    requires Tree(m0, root, 4) && NoHuge(m0, root, 4, va) && TablesInUse(m0, root, 4, v0.free)
    ensures Descent(m0, m0, v0, v0, root, va, root, 4, {})
  {
    NothingClaimed(v0, m0);
    assert [] + PlannedFlags(m0, root, 4, va) == PlannedFlags(m0, root, 4, va);
  }

  lemma DescentTable(m0: Memory, m: Memory, v0: Frames.State, v: Frames.State, root: nat, va: Word, t: nat,
                     l: nat, taken: set<nat>)
    requires 1 <= l <= 4 && Descent(m0, m, v0, v, root, va, t, l, taken)
    ensures 512 * t + 512 <= |m| && InMemory(m, t) && t !in v.free
    ensures t in Tables(m0, root, 4) + taken
  {
    hide Missing;
    OnPathIn(m, root, 4, va, t, l);
    assert t in Tables(m, root, 4);
  }

  // The existing table case of next_level.
  lemma DescentExisting(m0: Memory, m: Memory, v0: Frames.State, v: Frames.State, root: nat, va: Word, t: nat,
                        l: nat, taken: set<nat>)
    requires 1 < l <= 4 && Descent(m0, m, v0, v, root, va, t, l, taken)
    requires InMemory(m, t) && Present(Entry(m, t, Idx(va, l)))
    ensures Descent(m0, m, v0, v, root, va, Child(m, t, Idx(va, l)), l - 1, taken)
  {
    hide Reached, Claimed, OnlyFrames, TablesInUse;
    DescendExisting(m0, m, root, va, t, l, taken);
  }

  // The new table case of next_level.
  lemma DescentNew(m0: Memory, m: Memory, m': Memory, v0: Frames.State, v: Frames.State, v': Frames.State, root: nat,
                   va: Word, t: nat, l: nat, taken: set<nat>, z: nat)
    requires 1 < l <= 4 && Descent(m0, m, v0, v, root, va, t, l, taken)
    requires InMemory(m, t) && !Present(Entry(m, t, Idx(va, l)))
    requires Claimed(v, v', {z}) && TableAdded(m, m', t, Idx(va, l), z)
    ensures Descent(m0, m', v0, v', root, va, z, l - 1, taken + {z})
  {
    hide Reached, Claimed, OnlyFrames, TablesInUse, Tables, TableAdded, Present;
    var all := Tables(m0, root, 4);
    FreshTable(m, v, v', root, z);
    DescentTable(m0, m, v0, v, root, va, t, l, taken);
    DescendNew(m0, m, m', root, va, t, l, taken, z);
    ClaimMore(v0, v, v', taken, {z});
    DisjointSize(taken, {z});
    LinkedOnly(m0, m, m', t, Idx(va, l), z, all + taken);
    assert all + taken + {z} == all + (taken + {z});
    StillTables(m0, m, m', v, v', root, va, t, l, taken, z);
    assert ZeroFrame(m', z) by { AddedIsZero(m, m', t, Idx(va, l), z); }
    MissingInZero(m', z, l - 1, va);
  }

  lemma AddedIsZero(m: Memory, m': Memory, t: nat, i: nat, z: nat)
    requires TableAdded(m, m', t, i, z)
    ensures ZeroFrame(m', z)
  {
  }

  lemma FreshTable(m: Memory, v: Frames.State, v': Frames.State, root: nat, z: nat)
    requires TablesInUse(m, root, 4, v.free) && Claimed(v, v', {z})
    ensures z !in Tables(m, root, 4)
  {
  }

  lemma StillTables(m0: Memory, m: Memory, m': Memory, v: Frames.State, v': Frames.State, root: nat, va: Word, t: nat,
                    l: nat, taken: set<nat>, z: nat)
    requires 1 < l <= 4 && Reached(m0, m, root, va, t, l, taken)
    requires TablesInUse(m, root, 4, v.free) && Claimed(v, v', {z}) && TableAdded(m, m', t, Idx(va, l), z)
    requires InMemory(m, t) && !Present(Entry(m, t, Idx(va, l)))
    ensures TablesInUse(m', root, 4, v'.free)
  {
    hide Tree, Tables, OnPath, PathFlags, PlannedFlags, SameWalks, Present, NoHuge;
    FreshTable(m, v, v', root, z);
    NewTableSpace(m, m', root, va, t, l, z);
  }

  // map_page gives up: no frame is left, and tables are still missing.
  lemma DescentFailed(m0: Memory, m: Memory, v0: Frames.State, v: Frames.State, root: nat, va: Word, t: nat,
                      l: nat, taken: set<nat>)
    requires 1 < l <= 4 && Descent(m0, m, v0, v, root, va, t, l, taken)
    requires v.free == {} && InMemory(m, t) && !Present(Entry(m, t, Idx(va, l)))
    ensures SpaceGrown(m0, m, v0, v, root, taken) && SameWalks(m0, root, m, root, 4)
    ensures |v0.free| < Missing(m0, root, 4, va)
  {
    hide Claimed, OnlyFrames, TablesInUse, Tables, Tree, Present;
    OutOfFrames(v0, v, taken);
  }

  // It has found every table: each one added was missing.
  lemma DescentDone(m0: Memory, m: Memory, v0: Frames.State, v: Frames.State, root: nat, va: Word, t: nat,
                    taken: set<nat>)
    requires Descent(m0, m, v0, v, root, va, t, 1, taken)
    ensures Missing(m0, root, 4, va) == |taken| <= |v0.free|
  {
    hide Reached, OnlyFrames, TablesInUse;
    EnoughFrames(v0, v, taken);
  }

  lemma LinkedOnly(m0: Memory, m: Memory, m': Memory, t: nat, i: nat, z: nat, frames: set<nat>)
    requires OnlyFrames(m0, m, frames) && TableAdded(m, m', t, i, z) && t in frames
    ensures OnlyFrames(m0, m', frames + {z})
  {
    assert (512 * t + i) / 512 == t;
  }

  // memset(p2v(frame), 0, 4096)
  method ZeroPage(mem: array<Word>, z: nat)
    requires InMemory(mem[..], z)
    modifies mem
    ensures ZeroFrame(mem[..], z)
    ensures forall w: nat :: w < mem.Length && w / 512 != z ==> mem[..][w] == old(mem[..])[w]
  {
    Bytes.Memset(mem, 4096 * z, 0, 4096);
    forall w: nat | w < mem.Length && w / 512 == z ensures mem[..][w] == 0 {
      Bytes.ZeroBytesZeroWords(mem[..], 4096 * z, 4096, w);
    }
  }

  // tbl[i] = frame | PAGE_PRESENT | PAGE_WRITE, for a zeroed frame
  method LinkNew(mem: array<Word>, pmm: FrameAllocator, t: nat, i: nat, frame: Word)
    requires PmmFits(mem, pmm)
    requires InMemory(mem[..], t) && i < 512 && frame % 4096 == 0 && frame / 4096 != t
    requires frame < 0x10_0000_0000_0000 && InMemory(mem[..], frame / 4096)
    modifies mem
    ensures PmmFits(mem, pmm)
    ensures TableAdded(old(mem[..]), mem[..], t, i, frame / 4096)
  {
    ghost var m := mem[..];
    TableEntryMeaning(frame);
    ZeroPage(mem, frame / 4096);
    ghost var m1 := mem[..];
    assert (512 * t + i) / 512 == t;
    mem[512 * t + i] := Or(Or(frame, PAGE_PRESENT), PAGE_WRITE);
    ghost var e: Word := TableEntry(frame);
    assert mem[..] == m1[512 * t + i := e];
  }

  // next_level
  method NextLevel(mem: array<Word>, pmm: FrameAllocator, tbl: nat, i: nat, ghost m0: Memory, ghost v0: Frames.State,
                   ghost root: nat, ghost va: Word, ghost l: nat, ghost taken: set<nat>)
    returns (ok: bool, child: nat, ghost taken': set<nat>)
    requires PmmFits(mem, pmm) && 1 < l <= 4 && i == Idx(va, l)
    requires Descent(m0, mem[..], v0, pmm.view, root, va, tbl, l, taken)
    modifies mem, pmm, pmm.bitmap
    ensures PmmFits(mem, pmm) && pmm.bitmap == old(pmm.bitmap)
    ensures ok ==> Descent(m0, mem[..], v0, pmm.view, root, va, child, l - 1, taken')
    ensures !ok ==> SpaceGrown(m0, mem[..], v0, pmm.view, root, taken')
    ensures !ok ==> SameWalks(m0, root, mem[..], root, 4) && |v0.free| < Missing(m0, root, 4, va)
  {
    hide *;
    ghost var (m1, v1) := (mem[..], pmm.view);
    DescentTable(m0, m1, v0, v1, root, va, tbl, l, taken);
    EntryIs(m1, tbl, i, mem[512 * tbl + i]);
    if And(mem[512 * tbl + i], PAGE_PRESENT) == 0 {
      var frame := TakeFrame(mem, pmm);
      if frame == 0 {
        DescentFailed(m0, m1, v0, v1, root, va, tbl, l, taken);
        return false, 0, taken;
      }
      LinkNew(mem, pmm, tbl, i, frame);
      DescentNew(m0, m1, mem[..], v0, v1, pmm.view, root, va, tbl, l, taken, frame / 4096);
      taken' := taken + {frame / 4096};
      AddedEntry(m1, mem[..], tbl, i, frame / 4096);
    } else {
      DescentExisting(m0, m1, v0, v1, root, va, tbl, l, taken);
      taken' := taken;
    }
    ok, child := true, ChildFrame(mem[512 * tbl + i]);
  }

  // What the new entry leads back to.
  lemma AddedEntry(m: Memory, m': Memory, t: nat, i: nat, z: nat)
    requires TableAdded(m, m', t, i, z)
    ensures 512 * t + i < |m'| && ChildFrame(m'[512 * t + i]) == z
  {
    hide TableEntry, ChildFrame, Present, Huge, FlagsOf;
    TableEntryMeaning(z * 4096);
  }

  lemma EntryIs(m: Memory, t: nat, i: nat, e: Word)
    requires InMemory(m, t) && i < 512 && e == m[512 * t + i]
    ensures e == Entry(m, t, i) && ChildFrame(e) == Child(m, t, i)
    ensures And(e, PAGE_PRESENT) == 0 <==> !Present(Entry(m, t, i))
  {
  }

  // alloc_frame, as the paging code uses it
  method TakeFrame(mem: array<Word>, pmm: FrameAllocator) returns (frame: nat)
    requires PmmFits(mem, pmm)
    modifies pmm, pmm.bitmap
    ensures PmmFits(mem, pmm) && pmm.bitmap == old(pmm.bitmap) && mem[..] == old(mem[..])
    ensures frame == 0 ==> pmm.view == old(pmm.view) && pmm.view.free == {}
    ensures frame != 0 ==> Claimed(old(pmm.view), pmm.view, {frame / 4096})
    ensures frame != 0 ==> frame % 4096 == 0 && frame < 0x10_0000_0000_0000
    ensures frame != 0 ==> InMemory(mem[..], frame / 4096) && frame / 4096 in old(pmm.view).free
  {
    ghost var (v0, m) := (pmm.view, mem[..]);
    frame := pmm.AllocFrame();
    if frame != 0 {
      ClaimOne(v0, frame, pmm.view);
      HintMeaning(v0);
    }
  }

  /** The space under root is still a tree, grown by the frames `taken`, and
      only its own tables and those frames were written. */
  ghost predicate SpaceGrown(m0: Memory, m: Memory, v0: Frames.State, v: Frames.State, root: nat, taken: set<nat>) {
    && Claimed(v0, v, taken)
    && Tree(m, root, 4) && Tables(m, root, 4) == Tables(m0, root, 4) + taken
    && OnlyFrames(m0, m, Tables(m0, root, 4) + taken)
  }

  /** Afterwards va's page maps to e, and every other address is as before. */
  ghost predicate MapsOnePage(m0: Memory, m: Memory, root: nat, va: Word, e: Word) {
    forall vb: Word :: Walk(m, root, 4, vb) ==
      if SamePage(va, vb) then MappedPage(e, PlannedFlags(m0, root, 4, va)) else Walk(m0, root, 4, vb)
  }

  /** map_page. On success the translation changes for exactly the 4 KiB page of
      va. It fails exactly when more tables are missing on the way than frames
      are free, and then no translation changes. Either way the space stays a
      tree, grown by the tables added. */
  method MapPage(mem: array<Word>, pmm: FrameAllocator, root: nat, va: Word, pa: Word, flags: Word)
    returns (ok: bool, ghost taken: set<nat>)
    requires PmmFits(mem, pmm) && Tree(mem[..], root, 4)
    requires TablesInUse(mem[..], root, 4, pmm.view.free) && NoHuge(mem[..], root, 4, va)
    modifies mem, pmm, pmm.bitmap
    ensures PmmFits(mem, pmm) && pmm.bitmap == old(pmm.bitmap)
    ensures SpaceGrown(old(mem[..]), mem[..], old(pmm.view), pmm.view, root, taken)
    ensures PageEntryFor(pa, flags) < TWO64
    ensures ok ==> MapsOnePage(old(mem[..]), mem[..], root, va, PageEntryFor(pa, flags))
    ensures ok <==> Missing(old(mem[..]), root, 4, va) <= |old(pmm.view).free|
    ensures !ok ==> SameWalks(old(mem[..]), root, mem[..], root, 4)
  {
    hide *;
    EntryFits(pa, flags);
    var e: Word := PageEntryFor(pa, flags);
    ghost var (m0, v0) := (mem[..], pmm.view);
    StartDescent(m0, v0, root, va);
    var pdpt, pd, pt;
    ok, pdpt, taken := NextLevel(mem, pmm, root, Idx(va, 4), m0, v0, root, va, 4, {});
    if !ok {
      return;
    }
    ok, pd, taken := NextLevel(mem, pmm, pdpt, Idx(va, 3), m0, v0, root, va, 3, taken);
    if !ok {
      return;
    }
    ok, pt, taken := NextLevel(mem, pmm, pd, Idx(va, 2), m0, v0, root, va, 2, taken);
    if !ok {
      return;
    }
    DescentDone(m0, mem[..], v0, pmm.view, root, va, pt, taken);
    StorePage(mem, pmm, pt, e, m0, v0, root, va, taken);
  }

  lemma EntryFits(pa: Word, flags: Word)
    ensures PageEntryFor(pa, flags) < TWO64 && PageEntryFor(pa, flags) < 0x1_0000_0000_0000_0000
  {
    PageEntryMeaning(pa, flags);
  }

  // pt[PT_IDX(va)] = ...
  method StorePage(mem: array<Word>, pmm: FrameAllocator, pt: nat, e: Word, ghost m0: Memory, ghost v0: Frames.State,
                   ghost root: nat, va: Word, ghost taken: set<nat>)
    requires PmmFits(mem, pmm)
    requires Descent(m0, mem[..], v0, pmm.view, root, va, pt, 1, taken)
    modifies mem
    ensures PmmFits(mem, pmm)
    ensures SpaceGrown(m0, mem[..], v0, pmm.view, root, taken)
    ensures MapsOnePage(m0, mem[..], root, va, e)
  {
    hide *;
    ghost var m := mem[..];
    FitFacts(mem, pmm);
    DescentTable(m0, m, v0, pmm.view, root, va, pt, 1, taken);
    mem[512 * pt + Idx(va, 1)] := e;
    assert mem[..] == m[512 * pt + Idx(va, 1) := e];
    StorePageMeaning(m0, m, mem[..], v0, pmm.view, root, va, pt, taken, e);
  }

  lemma StorePageMeaning(m0: Memory, m: Memory, m': Memory, v0: Frames.State, v: Frames.State, root: nat, va: Word,
                         pt: nat, taken: set<nat>, e: Word)
    requires Descent(m0, m, v0, v, root, va, pt, 1, taken) && InMemory(m, pt)
    requires pt in Tables(m0, root, 4) + taken
    requires m' == m[512 * pt + Idx(va, 1) := e]
    ensures SpaceGrown(m0, m', v0, v, root, taken) && MapsOnePage(m0, m', root, va, e)
  {
    var all := Tables(m0, root, 4) + taken;
    assert Reached(m0, m, root, va, pt, 1, taken) && Claimed(v0, v, taken) && OnlyFrames(m0, m, all);
    StoreOnly(m0, m, m', pt, Idx(va, 1), e, all);
    StoreLeafTree(m0, m, m', root, va, pt, taken, e);
    StoreMapsOnePage(m0, m, m', root, va, pt, taken, e);
  }

  lemma StoreOnly(m0: Memory, m: Memory, m': Memory, t: nat, i: nat, e: Word, frames: set<nat>)
    requires OnlyFrames(m0, m, frames) && t in frames && i < 512 && InMemory(m, t)
    requires m' == m[512 * t + i := e]
    ensures OnlyFrames(m0, m', frames)
  {
    assert (512 * t + i) / 512 == t;
  }

  lemma StoreMapsOnePage(m0: Memory, m: Memory, m': Memory, root: nat, va: Word, pt: nat, taken: set<nat>, e: Word)
    requires Reached(m0, m, root, va, pt, 1, taken) && InMemory(m, pt)
    requires m' == m[512 * pt + Idx(va, 1) := e]
    ensures MapsOnePage(m0, m', root, va, e)
  {
    hide Reached, Tree, Tables, Walk, SameWalks, Idx, SamePage;
    forall vb: Word ensures Walk(m', root, 4, vb) ==
      if SamePage(va, vb) then MappedPage(e, PlannedFlags(m0, root, 4, va)) else Walk(m0, root, 4, vb)
    {
      StoreLeafWalk(m0, m, m', root, va, pt, taken, e, vb);
    }
  }
}
