/** The abstract meaning of the physical frame allocator: which frames are
    free, which are handed out, and what each operation does to them. The
    bitmap, the cached counter and the scan of the real allocator refine this
    (see Pmm.dfy). */
module Frames {
  import opened Machine

  datatype State = State(
    frameCount: nat,     // frames spanned by the bitmap
    free: set<nat>,      // frames whose bit is clear
    held: set<nat>,      // frames handed out and not yet returned
    managed: set<nat>,   // frames counted by total_frames
    reserved: set<nat>,  // frame 0 and the bitmap's own frames
    hint: nat)           // where the next single-frame scan starts

  ghost predicate Inv(s: State) {
    && (forall f :: f in s.managed ==> f < s.frameCount)
    && s.managed == s.free + s.held + s.managed * s.reserved
    && s.free !! s.held
    && s.reserved !! (s.free + s.held)
    && 0 in s.reserved
    && s.reserved <= s.managed + {0}
    && s.hint <= s.frameCount
    && (forall f :: f in s.free ==> s.hint <= f)
  }

  ghost predicate IsRun(free: set<nat>, start: nat, count: nat) {
    FrameRange(start, count) <= free
  }

  ghost predicate LowestRun(free: set<nat>, start: nat, count: nat) {
    && IsRun(free, start, count)
    && forall t: nat :: t < start ==> !IsRun(free, t, count)
  }

  /** alloc_frames (and alloc_frame, its count == 1 case): the lowest run of
      free frames moves from free to held; physical address 0 reports that no
      such run exists. */
  ghost predicate AllocStep(s: State, count: nat, phys: nat, s': State) {
    if phys == 0 then
      s' == s && (count == 0 || forall t: nat :: !IsRun(s.free, t, count))
    else
      var start := phys / 4096;
      && count > 0
      && phys == start * 4096
      && LowestRun(s.free, start, count)
      && s' == Take(s, start, count)
  }

  // Frames start .. start + count - 1 move from free to held.
  ghost function Take(s: State, start: nat, count: nat): State {
    var run := FrameRange(start, count);
    s.(free := s.free - run, held := s.held + run,
       hint := if count == 1 then start + 1 else s.hint)
  }

  // A caller may pass frames it holds; frames that are already free, frame 0
  // and frames beyond the bitmap are ignored by the code.
  ghost predicate MayFree(s: State, f: nat) {
    f == 0 || f >= s.frameCount || f in s.free || f in s.held
  }

  ghost function Min(a: nat, b: nat): nat { if a < b then a else b }

  ghost function FreeOne(s: State, f: nat): State {
    if f in s.held then
      s.(free := s.free + {f}, held := s.held - {f}, hint := Min(s.hint, f))
    else
      s
  }

  ghost function FreeMany(s: State, start: nat, count: nat): State {
    if count == 0 then s else FreeOne(FreeMany(s, start, count - 1), start + count - 1)
  }

  /** pmm_reclaim_bootloader: the reclaimable frames, except frame 0, join the
      managed and the free frames. */
  ghost function ReclaimStep(s: State, frames: set<nat>): State {
    s.(free := s.free + (frames - {0}), managed := s.managed + (frames - {0}), hint := 0)
  }

  // ------------------------------------------------------------ runs

  datatype Op =
    | Alloc(count: nat, phys: nat)
    | Free(start: nat, count: nat)
    | Reclaim(frames: set<nat>)

  ghost predicate Step(s: State, op: Op, s': State) {
    match op
    case Alloc(count, phys) => AllocStep(s, count, phys, s')
    case Free(start, count) =>
      && (forall f: nat :: f in FrameRange(start, count) ==> MayFree(s, f))
      && s' == FreeMany(s, start, count)
    case Reclaim(frames) =>
      && frames !! s.managed
      && (forall f: nat :: f in frames ==> f < s.frameCount)
      && s' == ReclaimStep(s, frames)
  }

  ghost predicate Run(states: seq<State>, ops: seq<Op>) {
    && |states| == |ops| + 1
    && forall i {:trigger ops[i]} :: 0 <= i < |ops| ==> Step(states[i], ops[i], states[i + 1])
  }

  // The frames a successful allocation hands out.
  ghost function HandedOut(op: Op): set<nat> {
    match op
    case Alloc(count, phys) => if phys == 0 then {} else FrameRange(phys / 4096, count)
    case _ => {}
  }

  // The frames an operation returns to the allocator.
  ghost function Returned(op: Op): set<nat> {
    match op
    case Free(start, count) => FrameRange(start, count)
    case _ => {}
  }

  // ------------------------------------------------------------ lemmas

  // s' is s after the held frames among `frames` have been returned.
  ghost predicate FreedSet(s: State, frames: set<nat>, s': State) {
    var back := frames * s.held;
    && s' == s.(free := s.free + back, held := s.held - back, hint := s'.hint)
    && s'.hint <= s.hint
    && (forall f :: f in back ==> s'.hint <= f)
    && (s'.hint == s.hint || s'.hint in back)
  }

  lemma FreedOneMore(s: State, frames: set<nat>, m: State, f: nat)
    requires FreedSet(s, frames, m) && f !in frames
    ensures FreedSet(s, frames + {f}, FreeOne(m, f))
  {
    var back := frames * s.held;
    if f in s.held {
      assert (frames + {f}) * s.held == back + {f};
      assert s.free + back + {f} == s.free + (back + {f});
      assert s.held - back - {f} == s.held - (back + {f});
    } else {
      assert (frames + {f}) * s.held == back;
    }
  }

  // What a whole run of free_frame calls does, without the recursion.
  lemma {:induction false} FreeManyMeaning(s: State, start: nat, count: nat)
    ensures FreedSet(s, FrameRange(start, count), FreeMany(s, start, count))
  {
    if count == 0 {
      assert s.free + {} == s.free && s.held - {} == s.held;
    } else {
      FreeManyMeaning(s, start, count - 1);
      FreedOneMore(s, FrameRange(start, count - 1), FreeMany(s, start, count - 1), start + count - 1);
    }
  }

  // Freeing part of a range leaves the rest of it freeable.
  lemma MayFreeNext(s: State, start: nat, count: nat, i: nat)
    requires i < count
    requires forall f: nat :: f in FrameRange(start, count) ==> MayFree(s, f)
    ensures MayFree(FreeMany(s, start, i), start + i)
  {
    FreeManyMeaning(s, start, i);
    assert start + i in FrameRange(start, count);
  }

  lemma FreeOneKeepsInv(s: State, f: nat)
    requires Inv(s)
    ensures Inv(FreeOne(s, f))
  {
    var s' := FreeOne(s, f);
    assert s'.free + s'.held == s.free + s.held;
  }

  lemma FreeKeepsInv(s: State, start: nat, count: nat)
    requires Inv(s)
    ensures Inv(FreeMany(s, start, count))
  {
    FreeManyMeaning(s, start, count);
  }

  lemma TakeKeepsInv(s: State, start: nat, count: nat)
    requires Inv(s) && count > 0 && LowestRun(s.free, start, count)
    ensures Inv(Take(s, start, count))
  {
    var s' := Take(s, start, count);
    var run := FrameRange(start, count);
    assert start in run;
    assert s.free + s.held == s'.free + s'.held;
    assert s'.managed == s'.free + s'.held + s'.managed * s'.reserved;
    if count == 1 {
      forall f | f in s'.free ensures start + 1 <= f {
        assert FrameRange(f, 1) == {f};
        assert IsRun(s.free, f, 1);
      }
    }
  }

  lemma AllocKeepsInv(s: State, count: nat, phys: nat, s': State)
    requires Inv(s) && AllocStep(s, count, phys, s')
    ensures Inv(s')
  {
    if phys != 0 {
      TakeKeepsInv(s, phys / 4096, count);
    }
  }

  // What an allocator that has found the lowest run owes its caller.
  lemma TakeIsAllocStep(s: State, start: nat, count: nat)
    requires Inv(s) && count > 0 && LowestRun(s.free, start, count)
    ensures start > 0 && start + count <= s.frameCount
    ensures AllocStep(s, count, start * 4096, Take(s, start, count))
    ensures Inv(Take(s, start, count))
  {
    TakeKeepsInv(s, start, count);
    assert start in FrameRange(start, count);
    assert start + count - 1 in FrameRange(start, count);
    var phys := start * 4096;
    assert phys / 4096 == start;
    assert AllocStep(s, count, phys, Take(s, start, count));
  }

  lemma ReclaimKeepsInv(s: State, frames: set<nat>)
    requires Inv(s) && Step(s, Reclaim(frames), ReclaimStep(s, frames))
    ensures Inv(ReclaimStep(s, frames))
  {
  }

  lemma StepKeepsInv(s: State, op: Op, s': State)
    requires Inv(s) && Step(s, op, s')
    ensures Inv(s')
  {
    match op
    case Free(start, count) => FreeKeepsInv(s, start, count);
    case Reclaim(frames) => ReclaimKeepsInv(s, frames);
    case Alloc(count, phys) => AllocKeepsInv(s, count, phys, s');
  }

  /** Safety over every run: the invariant holds in every state. */
  lemma {:induction false} RunKeepsInv(states: seq<State>, ops: seq<Op>, i: nat)
    requires Run(states, ops) && Inv(states[0]) && i <= |ops|
    ensures Inv(states[i])
  {
    if i > 0 {
      RunKeepsInv(states, ops, i - 1);
      StepKeepsInv(states[i - 1], ops[i - 1], states[i]);
    }
  }

  /** Conservation: every managed frame is free, held or reserved, so the
      cached total always splits into the three counts. */
  lemma Conservation(s: State)
    requires Inv(s)
    ensures |s.managed| == |s.free| + |s.held| + |s.managed * s.reserved|
    ensures |s.free| <= |s.managed|
  {
    var r := s.managed * s.reserved;
    assert |s.free + s.held| == |s.free| + |s.held|;
    assert (s.free + s.held) !! r;
    assert |s.free + s.held + r| == |s.free + s.held| + |r|;
  }

  lemma HeldStays(s: State, op: Op, s': State, f: nat)
    requires Step(s, op, s') && f in s.held && f !in Returned(op)
    ensures f in s'.held
  {
    match op
    case Free(start, count) => FreeManyMeaning(s, start, count);
    case _ =>
  }

  lemma {:induction false} HeldUntilReturned(states: seq<State>, ops: seq<Op>, i: nat, j: nat, f: nat)
    requires Run(states, ops) && i <= j <= |ops|
    requires f in states[i].held
    requires forall k :: i <= k < j ==> f !in Returned(ops[k])
    ensures f in states[j].held
  {
    if i < j {
      HeldUntilReturned(states, ops, i, j - 1, f);
      HeldStays(states[j - 1], ops[j - 1], states[j], f);
    }
  }

  /** No frame is handed out twice without being returned in between, across
      any run, the reclaim step included. */
  lemma NoDoubleHandout(states: seq<State>, ops: seq<Op>, i: nat, j: nat, f: nat)
    requires Run(states, ops) && Inv(states[0]) && i < j < |ops|
    requires f in HandedOut(ops[i]) && f in HandedOut(ops[j])
    ensures exists k :: i < k < j && f in Returned(ops[k])
  {
    assert Step(states[i], ops[i], states[i + 1]);
    assert Step(states[j], ops[j], states[j + 1]);
    RunKeepsInv(states, ops, j);
    assert f in states[i + 1].held && f !in states[j].held;
    if forall k :: i < k < j ==> f !in Returned(ops[k]) {
      HeldUntilReturned(states, ops, i + 1, j, f);
    }
  }

  lemma {:induction false} ReservedIsConstant(states: seq<State>, ops: seq<Op>, i: nat)
    requires Run(states, ops) && i <= |ops|
    ensures states[i].reserved == states[0].reserved
  {
    if i > 0 {
      ReservedIsConstant(states, ops, i - 1);
      assert Step(states[i - 1], ops[i - 1], states[i]);
      match ops[i - 1]
      case Free(start, count) => FreeManyMeaning(states[i - 1], start, count);
      case _ =>
    }
  }

  /** Frame 0 and the bitmap's own frames are never handed out. */
  lemma ReservedNeverHandedOut(states: seq<State>, ops: seq<Op>, i: nat, f: nat)
    requires Run(states, ops) && Inv(states[0]) && i < |ops|
    requires f in states[0].reserved
    ensures f !in HandedOut(ops[i])
  {
    RunKeepsInv(states, ops, i);
    ReservedIsConstant(states, ops, i);
    assert Step(states[i], ops[i], states[i + 1]);
  }

  /** The outcome of an allocation is determined by the free set. */
  lemma AllocDeterministic(s: State, count: nat, p: nat, s1: State, q: nat, s2: State)
    requires 0 in s.reserved && s.free !! s.reserved
    requires AllocStep(s, count, p, s1) && AllocStep(s, count, q, s2)
    ensures p == q && s1 == s2
  {
    var (a, b) := (p / 4096, q / 4096);
    assert p != 0 ==> IsRun(s.free, a, count);
    assert q != 0 ==> IsRun(s.free, b, count);
  }

  /** Freeing a successful allocation restores the state exactly; for a single
      frame the hint moves to that frame. Freeing again changes nothing. */
  lemma AllocThenFree(s: State, count: nat, phys: nat, s': State)
    requires Inv(s) && AllocStep(s, count, phys, s') && phys != 0
    ensures var start := phys / 4096;
            var s'' := FreeMany(s', start, count);
            && s'' == s.(hint := if count == 1 then start else s.hint)
            && FreeMany(s'', start, count) == s''
  {
    var start := phys / 4096;
    var run := FrameRange(start, count);
    var s'' := FreeMany(s', start, count);
    FreeManyMeaning(s', start, count);
    FreeManyMeaning(s'', start, count);
    assert start in run;
    assert run * s'.held == run;
    assert s'.free + run == s.free;
    assert s'.held - run == s.held;
    assert run * s''.held == {};
    assert s''.free + {} == s''.free && s''.held - {} == s''.held;
    if count == 1 {
      assert run == {start};
    }
  }

  // ------------------------------------------------------------ the scan hint

  lemma HintMeaning(s: State)
    requires Inv(s)
    ensures s.hint <= s.frameCount
    ensures forall f :: f in s.free ==> 0 < f && s.hint <= f < s.frameCount
  {
  }

  ghost predicate LowestFrom(free: set<nat>, from: nat, f: nat) {
    f in free && from <= f && forall g :: g in free && from <= g ==> f <= g
  }

  // The frame a two-pass scan finds: first at or above the hint, then below it.
  ghost predicate TwoPass(free: set<nat>, hint: nat, f: nat) {
    || LowestFrom(free, hint, f)
    || ((forall g :: g in free ==> g < hint) && LowestFrom(free, 0, f))
  }

  /** The two-pass scan agrees with a scan from 0 exactly when the lowest free
      frame is not hidden below the hint by a free frame above it. */
  lemma HintIsOnlyAnAcceleration(free: set<nat>, hint: nat, f: nat, low: nat)
    requires TwoPass(free, hint, f) && LowestFrom(free, 0, low)
    ensures f == low <==> (hint <= low || forall g :: g in free ==> g < hint)
  {
  }

  /** Without the hint invariant the single-frame shortcut of alloc_frames is
      not the lowest run: with frames 1 and 5 free and the hint at 3 the scan
      finds 5. */
  lemma StaleHintSkipsLowerFrame()
    ensures TwoPass({1, 5}, 3, 5) && LowestFrom({1, 5}, 0, 1)
    ensures !LowestRun({1, 5}, 5, 1)
  {
    assert FrameRange(1, 1) == {1};
    assert IsRun({1, 5}, 1, 1);
  }

  /** A run of two or more frames never starts below the hint, so
      alloc_frames may leave the hint alone. */
  lemma RunStartsAtOrAboveHint(s: State, start: nat, count: nat)
    requires Inv(s) && count >= 1 && IsRun(s.free, start, count)
    ensures s.hint <= start < start + count <= s.frameCount
  {
    assert start in FrameRange(start, count);
    assert start + count - 1 in FrameRange(start, count);
  }

  // A single lowest free frame is the lowest run of length one.
  lemma LowestSingle(free: set<nat>, f: nat)
    requires LowestFrom(free, 0, f)
    ensures LowestRun(free, f, 1) && FrameRange(f, 1) == {f}
  {
    forall t: nat | t < f ensures !IsRun(free, t, 1) {
      assert t in FrameRange(t, 1);
    }
  }

  // ------------------------------------------------------------ the run scan

  // alloc_frames has looked at frames below i; the last `run` of them form a
  // maximal run of free frames, and no run of `count` ends at or below i.
  ghost predicate ScanState(free: set<nat>, i: nat, run: nat, count: nat) {
    && run <= i && run < count
    && (forall f: nat :: i - run <= f < i ==> f in free)
    && (run < i ==> i - run - 1 !in free)
    && (forall t: nat :: t + count <= i ==> !IsRun(free, t, count))
  }

  lemma ScanFree(free: set<nat>, i: nat, run: nat, count: nat)
    requires ScanState(free, i, run, count) && i in free
    ensures run + 1 < count ==> ScanState(free, i + 1, run + 1, count)
    ensures run + 1 == count ==> LowestRun(free, i - run, count)
  {
    forall t: nat | t + count == i + 1 && run + 1 < count ensures !IsRun(free, t, count) {
      assert i - run - 1 in FrameRange(t, count);
    }
  }

  lemma ScanUsed(free: set<nat>, i: nat, run: nat, count: nat)
    requires ScanState(free, i, run, count) && i !in free
    ensures ScanState(free, i + 1, 0, count)
  {
    forall t: nat | t + count == i + 1 ensures !IsRun(free, t, count) {
      assert i in FrameRange(t, count);
    }
  }

  lemma RemoveSize(a: set<nat>, b: set<nat>)
    requires b <= a
    ensures |a - b| == |a| - |b|
  {
    assert a == (a - b) + b;
  }

  lemma NoRunInEmpty(count: nat)
    requires count > 0
    ensures forall t: nat :: !IsRun({}, t, count)
  {
    forall t: nat ensures !IsRun({}, t, count) {
      assert t in FrameRange(t, count);
    }
  }

  // Without a free frame every allocation fails.
  lemma NoFrameNoAlloc(s: State, count: nat, phys: nat, s': State)
    requires AllocStep(s, count, phys, s') && s.free == {}
    ensures phys == 0 && s' == s
  {
    if count > 0 {
      NoRunInEmpty(count);
    }
  }

  lemma NoRunBeyond(free: set<nat>, n: nat, count: nat)
    requires count > 0 && (forall f :: f in free ==> f < n)
    requires forall t: nat :: t + count <= n ==> !IsRun(free, t, count)
    ensures forall t: nat :: !IsRun(free, t, count)
  {
    forall t: nat ensures !IsRun(free, t, count) {
      assert t + count - 1 in FrameRange(t, count);
    }
  }

  lemma ReclaimFields(s: State, frames: set<nat>)
    requires Inv(s) && frames !! s.managed
    ensures var s' := ReclaimStep(s, frames);
            && s'.frameCount == s.frameCount && s'.hint == 0
            && |s'.managed| - |s.managed| == |s'.free| - |s.free|
            && |s'.free| >= |s.free|
  {
    var more := frames - {0};
    assert s.free !! more && |s.free + more| == |s.free| + |more|;
    assert s.managed !! more && |s.managed + more| == |s.managed| + |more|;
  }
}
