/** The heap as a partition: the words of every frame taken from the frame
    allocator belong to exactly one free or live block. */
module Tiling {
  import opened Machine
  import opened FreeList
  import opened HeapMemory

  ghost predicate InFrames(frames: set<nat>, w: int) { w >= 0 && w / 512 in frames }

  ghost function FrameWords(frames: set<nat>): iset<int> {
    iset w: int | InFrames(frames, w)
  }

  ghost predicate InLive(live: set<Block>, w: int) {
    exists b :: b in live && Occupies(b, w)
  }

  ghost function LiveWords(live: set<Block>): iset<int> {
    iset w: int | InLive(live, w)
  }

  /** None lost, none in two blocks. */
  ghost predicate Tiled(free: seq<Block>, live: set<Block>, frames: set<nat>) {
    && FrameWords(frames) == Cover(free) + LiveWords(live)
    && Cover(free) !! LiveWords(live)
    && forall b, c :: b in live && c in live && b != c ==> Apart(b, c)
  }

  // Every live block keeps its size in its header.
  ghost predicate LiveOk(m: Memory, live: set<Block>) {
    forall b :: b in live ==> WellFormed(b) && End(b) <= |m| && m[b.at] == 8 * b.words
  }

  lemma LiveOkKept(m: Memory, m': Memory, ws: iset<int>, live: set<Block>)
    requires LiveOk(m, live) && OnlyIn(m, m', ws) && ws !! LiveWords(live)
    ensures LiveOk(m', live)
  {
    forall b | b in live ensures m'[b.at] == m[b.at] {
      assert Occupies(b, b.at);
      assert b.at in LiveWords(live);
    }
  }

  lemma LiveOkAdd(m: Memory, live: set<Block>, b: Block)
    requires LiveOk(m, live) && WellFormed(b) && End(b) <= |m| && m[b.at] == 8 * b.words
    ensures LiveOk(m, live + {b})
  {
  }

  lemma LiveWordsAdd(live: set<Block>, b: Block)
    ensures LiveWords(live + {b}) == LiveWords(live) + Words(b)
  {
    forall w: int ensures InLive(live + {b}, w) <==> InLive(live, w) || Occupies(b, w) {
      if InLive(live, w) {
        var c :| c in live && Occupies(c, w);
        assert c in live + {b};
      }
      if Occupies(b, w) {
        assert b in live + {b};
      }
    }
  }

  lemma LiveWordsOf(live: set<Block>, b: Block)
    requires b in live
    ensures Words(b) <= LiveWords(live)
  {
  }

  lemma LiveWordsRemove(live: set<Block>, b: Block)
    requires b in live
    requires forall c, d :: c in live && d in live && c != d ==> Apart(c, d)
    ensures LiveWords(live - {b}) == LiveWords(live) - Words(b)
  {
    forall w: int ensures InLive(live - {b}, w) <==> InLive(live, w) && !Occupies(b, w) {
      if InLive(live - {b}, w) {
        var c :| c in live - {b} && Occupies(c, w);
        assert c in live && Apart(c, b);
      }
      if InLive(live, w) && !Occupies(b, w) {
        var c :| c in live && Occupies(c, w);
        assert c in live - {b};
      }
    }
  }

  lemma TileTake(free: seq<Block>, live: set<Block>, frames: set<nat>, free': seq<Block>, b: Block)
    requires Tiled(free, live, frames)
    requires Words(b) <= Cover(free) && Cover(free') == Cover(free) - Words(b)
    ensures Tiled(free', live + {b}, frames)
  {
    LiveWordsAdd(live, b);
    forall c | c in live ensures Apart(b, c) {
      LiveWordsOf(live, c);
      DisjointIsApart(b, c);
    }
    forall c, d | c in live + {b} && d in live + {b} && c != d ensures Apart(c, d) {
      if d == b { ApartSym(b, c); }
    }
  }

  lemma ApartSym(b: Block, c: Block)
    ensures Apart(b, c) <==> Apart(c, b)
  {
  }

  lemma TileFree(free: seq<Block>, live: set<Block>, frames: set<nat>, free': seq<Block>, b: Block)
    requires Tiled(free, live, frames) && b in live
    requires Cover(free') == Cover(free) + Words(b)
    ensures Tiled(free', live - {b}, frames)
  {
    LiveWordsRemove(live, b);
    LiveWordsOf(live, b);
  }

  lemma TileGrow(free: seq<Block>, live: set<Block>, frames: set<nat>, free': seq<Block>, run: set<nat>)
    requires Tiled(free, live, frames) && run !! frames
    requires Cover(free') == Cover(free) + FrameWords(run)
    ensures Tiled(free', live, frames + run)
  {
    assert FrameWords(frames + run) == FrameWords(frames) + FrameWords(run);
    assert FrameWords(frames) !! FrameWords(run);
  }

  // The block heap_grow makes of a run of frames.
  function RunBlock(start: nat, count: nat): Block
    requires count > 0
  {
    Block(512 * start, 512 * count - 2)
  }

  lemma InRun(start: nat, count: nat, w: nat)
    ensures start <= w / 512 < start + count <==> 512 * start <= w < 512 * (start + count)
  {
  }

  lemma RunBlockWord(start: nat, count: nat, w: int)
    requires count > 0 && start > 0
    ensures Occupies(RunBlock(start, count), w) <==> InFrames(FrameRange(start, count), w)
  {
    if w >= 0 {
      InRun(start, count, w);
      assert w / 512 in FrameRange(start, count) <==> start <= w / 512 < start + count;
    }
  }

  lemma RunBlockOk(start: nat, count: nat)
    requires count > 0 && start > 0
    ensures WellFormed(RunBlock(start, count))
  {
    var half := 256 * count - 1;
    assert 512 * start == 2 * (256 * start) && 512 * count - 2 == 2 * half;
  }

  lemma RunBlockWords(start: nat, count: nat)
    requires count > 0 && start > 0
    ensures WellFormed(RunBlock(start, count))
    ensures Words(RunBlock(start, count)) == FrameWords(FrameRange(start, count))
  {
    hide Occupies, InFrames, FrameRange, RunBlock, WellFormed;
    RunBlockOk(start, count);
    forall w: int ensures Occupies(RunBlock(start, count), w) <==> InFrames(FrameRange(start, count), w) {
      RunBlockWord(start, count, w);
    }
  }

  lemma FreshRunDisjoint(free: seq<Block>, live: set<Block>, frames: set<nat>, run: set<nat>)
    requires Tiled(free, live, frames) && run !! frames
    ensures FrameWords(run) !! Cover(free) && FrameWords(run) !! LiveWords(live)
  {
    assert FrameWords(frames) !! FrameWords(run);
  }

  lemma TakenIsNew(free: seq<Block>, live: set<Block>, frames: set<nat>, b: Block)
    requires Tiled(free, live, frames) && Words(b) <= Cover(free)
    ensures b !in live
  {
    assert Occupies(b, b.at) && b.at in Words(b);
    if b in live {
      LiveWordsOf(live, b);
    }
  }

  lemma EmptyTiling()
    ensures Tiled([], {}, {})
  {
    CoverNil();
    assert FrameWords({}) == iset{};
    assert LiveWords({}) == iset{};
  }

  // Every word of every live block is the same in both memories.
  ghost predicate Untouched(m: Memory, m': Memory, live: set<Block>) {
    |m| == |m'| && forall w: nat :: w < |m| && w in LiveWords(live) ==> m[w] == m'[w]
  }

  lemma UntouchedRefl(m: Memory, live: set<Block>)
    ensures Untouched(m, m, live)
  {
  }

  lemma UntouchedTrans(m: Memory, m': Memory, m'': Memory, live: set<Block>)
    requires Untouched(m, m', live) && Untouched(m', m'', live)
    ensures Untouched(m, m'', live)
  {
  }

  lemma OnlyInLeavesLive(m: Memory, m': Memory, ws: iset<int>, live: set<Block>)
    requires OnlyIn(m, m', ws) && ws !! LiveWords(live)
    ensures Untouched(m, m', live)
  {
  }

  ghost predicate InPayload(b: Block, w: int) { b.at + 2 <= w < End(b) }

  // The words of a block after its header.
  ghost function Payload(b: Block): iset<int> {
    iset w: int | InPayload(b, w)
  }

  // Writing into the payload of one live block disturbs nothing else.
  lemma PayloadWrite(m: Memory, m': Memory, free: seq<Block>, live: set<Block>, frames: set<nat>, b: Block,
                     hhdm: nat, head: nat)
    requires Tiled(free, live, frames) && LiveOk(m, live) && Linked(m, hhdm, head, free)
    requires b in live && OnlyIn(m, m', Payload(b))
    ensures LiveOk(m', live) && Linked(m', hhdm, head, free)
    ensures Untouched(m, m', live - {b})
  {
    forall w: int | w in Payload(b) ensures w in Words(b) {
      assert Occupies(b, w);
    }
    LiveWordsOf(live, b);
    LiveWordsRemove(live, b);
    LinkedKept(m, m', Payload(b), hhdm, head, free);
    forall c | c in live ensures m'[c.at] == m[c.at] {
      assert c != b ==> Apart(c, b);
    }
    OnlyInLeavesLive(m, m', Payload(b), live - {b});
  }

  lemma TiledDisjoint(free: seq<Block>, live: set<Block>, frames: set<nat>)
    requires Tiled(free, live, frames)
    ensures Cover(free) !! LiveWords(live)
  {
  }

  lemma PayloadAligned(hhdm: nat, b: Block)
    requires WellFormed(b) && hhdm % 4096 == 0
    ensures Addr(hhdm, b.at) > 0 && (Addr(hhdm, b.at) + 16) % 16 == 0
  {
    var h, a := hhdm / 4096, b.at / 2;
    assert Addr(hhdm, b.at) + 16 == 16 * (256 * h + a + 1);
  }

  lemma LessUntouched(m: Memory, m': Memory, live: set<Block>, b: Block)
    requires Untouched(m, m', live)
    ensures Untouched(m, m', live - {b})
  {
    forall w: int | w in LiveWords(live - {b}) ensures w in LiveWords(live) {
      var c :| c in live - {b} && Occupies(c, w);
      assert c in live;
    }
  }

  lemma UntouchedSubset(m: Memory, m': Memory, live: set<Block>, less: set<Block>)
    requires Untouched(m, m', live) && less <= live
    ensures Untouched(m, m', less)
  {
    forall w: int | w in LiveWords(less) ensures w in LiveWords(live) {
      var c :| c in less && Occupies(c, w);
      assert c in live;
    }
  }

  // The three steps of a move leave every block but the two involved alone.
  lemma MoveKeepsOthers(m0: Memory, m1: Memory, m2: Memory, m3: Memory, live: set<Block>, from: Block, to: Block)
    requires Untouched(m0, m1, live)
    requires Untouched(m1, m2, live + {to} - {to})
    requires Untouched(m2, m3, live + {to} - {from})
    ensures Untouched(m0, m3, live - {from} - {to})
  {
    var rest := live - {from} - {to};
    UntouchedSubset(m0, m1, live, rest);
    UntouchedSubset(m1, m2, live + {to} - {to}, rest);
    UntouchedSubset(m2, m3, live + {to} - {from}, rest);
    UntouchedTrans(m0, m1, m2, rest);
    UntouchedTrans(m0, m2, m3, rest);
  }

  lemma SingleRunList(l: seq<Block>, b: Block)
    requires Canonical(l) && WellFormed(b) && Cover(l) == Cover([]) + Words(b)
    ensures l == [b]
  {
    CoverNil();
    CoverSingle(b);
    CanonicalUnique(l, [b]);
  }

  // ------------------------------------------------------------ inside the heap

  lemma HeapWritesTrans(m: Memory, m': Memory, m'': Memory, frames: set<nat>, frames': set<nat>)
    requires OnlyFrames(m, m', frames) && OnlyFrames(m', m'', frames') && frames <= frames'
    ensures OnlyFrames(m, m'', frames')
  {
  }

  lemma FreeInHeap(m: Memory, m': Memory, free: seq<Block>, live: set<Block>, frames: set<nat>)
    requires Tiled(free, live, frames) && OnlyIn(m, m', Cover(free))
    ensures OnlyFrames(m, m', frames)
  {
    forall w: nat | w < |m| && w / 512 !in frames ensures m'[w] == m[w] {
      assert w !in FrameWords(frames) by { assert !InFrames(frames, w); }
    }
  }

  lemma PayloadInHeap(m: Memory, m': Memory, free: seq<Block>, live: set<Block>, frames: set<nat>, b: Block)
    requires Tiled(free, live, frames) && b in live && OnlyIn(m, m', Payload(b))
    ensures OnlyFrames(m, m', frames)
  {
    forall w: nat | w < |m| && w / 512 !in frames ensures w !in Payload(b) {
      assert w !in FrameWords(frames) by { assert !InFrames(frames, w); }
      if InPayload(b, w) {
        assert Occupies(b, w) && InLive(live, w);
      }
    }
  }

  lemma OnlyFramesRefl(m: Memory, frames: set<nat>)
    ensures OnlyFrames(m, m, frames)
  {
  }
}
