/** Machine-level constants shared by the whole memory stack: 64-bit words,
    4 KiB frames, and the ranges of frames that allocators hand out. */
module Machine {
  const TWO64: nat := 0x1_0000_0000_0000_0000

  // An unsigned 64-bit machine word.
  type Word = w: int | 0 <= w < 0x1_0000_0000_0000_0000

  // The frames start, start + 1, ..., start + count - 1.
  ghost function FrameRange(start: nat, count: nat): (r: set<nat>)
    ensures forall f: nat :: f in r <==> start <= f < start + count
    ensures |r| == count
  {
    if count == 0 then {} else FrameRange(start, count - 1) + {start + count - 1}
  }
}
