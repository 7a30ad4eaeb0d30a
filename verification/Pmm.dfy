/** The physical frame allocator: a bitmap with one bit per frame (1 = used),
    a cached count of free frames and a scan hint. */
module Pmm {
  import opened Machine
  import opened Bits
  import opened Frames

  // Memory-map entry types of the Limine Boot Protocol.
  const USABLE: Word := 0
  const BOOTLOADER_RECLAIMABLE: Word := 5

  datatype Region = Region(base: Word, length: Word, kind: Word)

  // ------------------------------------------------------------ memory map

  ghost predicate FullyInside(f: nat, base: nat, length: nat) {
    base <= f * 4096 && (f + 1) * 4096 <= base + length
  }

  ghost function FramesIn(base: nat, length: nat): set<nat> {
    set f: nat | f < TWO64 && FullyInside(f, base, length)
  }

  ghost predicate InRegionOfKind(f: nat, regions: seq<Region>, kind: Word) {
    exists i :: 0 <= i < |regions| && regions[i].kind == kind
                && FullyInside(f, regions[i].base, regions[i].length)
  }

  // Frames that lie completely inside some region of the given kind.
  ghost function FramesOfKind(regions: seq<Region>, kind: Word): set<nat> {
    set f: nat | f < TWO64 && InRegionOfKind(f, regions, kind)
  }

  // No region reaches so high that rounding its bounds up to a page wraps.
  ghost predicate NoWrap(regions: seq<Region>) {
    forall r :: r in regions ==> r.base + r.length + 4096 <= TWO64
  }

  // Those of the frames that a bitmap of n bits spans.
  ghost function Spanned(frames: set<nat>, n: nat): set<nat> {
    set f | f in frames && f < n
  }

  predicate Tracked(r: Region) {
    r.kind == USABLE || r.kind == BOOTLOADER_RECLAIMABLE
  }

  // n frames reach exactly to the end of usable and reclaimable memory.
  ghost predicate SpansMemory(regions: seq<Region>, n: nat) {
    && (forall r :: r in regions && Tracked(r) ==> r.base + r.length <= n * 4096)
    && (n > 0 ==> exists r :: r in regions && Tracked(r) && r.base + r.length > (n - 1) * 4096)
  }

  // The fewest whole pages with one bit for each of n frames.
  ghost predicate BitmapSize(bytes: nat, n: nat) {
    && bytes % 4096 == 0
    && n <= 8 * bytes
    && (bytes > 0 ==> 8 * (bytes - 4096) < n)
  }

  ghost predicate HasRoom(r: Region, bytes: nat) {
    r.kind == USABLE && AlignUp(r.base, 4096) + bytes <= r.base + r.length
  }

  /** Regions of any other kind do not change how many frames there are. */
  lemma OtherKindsDoNotCount(regions: seq<Region>, r: Region, n: nat)
    requires r.kind != 0 && r.kind != 5
    ensures SpansMemory(regions + [r], n) <==> SpansMemory(regions, n)
  {
    var all := regions + [r];
    assert forall x :: x in all <==> x in regions || x == r;
  }

  // Usable memory from 1 MiB to 128 MiB and a reserved range below 2^40, as
  // an emulated PC reports them, are 0x8000 frames.
  lemma ReservedRangeOnTop()
    ensures var regions := [Region(0x10_0000, 0x7F0_0000, 0), Region(0xFD_0000_0000, 0x3_0000_0000, 1)];
            forall n: nat :: SpansMemory(regions, n) <==> n == 0x8000
  {
    var (low, high) := (Region(0x10_0000, 0x7F0_0000, 0), Region(0xFD_0000_0000, 0x3_0000_0000, 1));
    var regions := [low, high];
    assert low in regions && forall r :: r in regions <==> r == low || r == high;
    forall n: nat ensures SpansMemory(regions, n) <==> n == 0x8000 {
      if SpansMemory(regions, n) {
        assert low.base + low.length <= n * 4096;
      }
    }
  }

  lemma BitmapBytesMeaning(n: nat)
    requires n * 4096 < TWO64
    ensures BitmapSize(AlignUp((n + 7) / 8, 4096), n)
    ensures var bytes := AlignUp((n + 7) / 8, 4096);
            bytes % 4096 == 0 && n <= 8 * bytes && (bytes > 0 ==> 8 * (bytes - 4096) < n)
  {
    PageAlignment((n + 7) / 8);
  }

  lemma RoomCheck(r: Region, bytes: nat)
    requires r.base + r.length + 4096 <= TWO64
    requires r.kind == USABLE && AlignUp(r.base, 4096) <= r.base + r.length
    ensures Avail(r) >= bytes <==> HasRoom(r, bytes)
  {
    hide AlignUp;
    var up := AlignUp(r.base, 4096);
    assert up >= r.base by { PageAlignment(r.base); }
    assert (r.base + r.length - up) % TWO64 == r.base + r.length - up;
  }

  // phys is the first page of the first usable region with room for the bitmap.
  ghost predicate BitmapPlace(regions: seq<Region>, bytes: nat, phys: nat) {
    exists k :: 0 <= k < |regions| && HasRoom(regions[k], bytes)
                && phys == AlignUp(regions[k].base, 4096)
                && forall j :: 0 <= j < k ==> !HasRoom(regions[j], bytes)
  }

  lemma KindStep(regions: seq<Region>, i: nat, kind: Word)
    requires i < |regions|
    ensures FramesOfKind(regions[..i + 1], kind)
            == FramesOfKind(regions[..i], kind)
               + if regions[i].kind == kind then FramesIn(regions[i].base, regions[i].length) else {}
  {
    var (r, s) := (regions[..i + 1], regions[..i]);
    forall f: nat ensures InRegionOfKind(f, r, kind) <==>
        InRegionOfKind(f, s, kind) || (regions[i].kind == kind && FullyInside(f, regions[i].base, regions[i].length)) {
      assert forall j :: 0 <= j < i ==> r[j] == s[j];
      assert r[i] == regions[i];
      if InRegionOfKind(f, s, kind) {
        var j :| 0 <= j < |s| && s[j].kind == kind && FullyInside(f, s[j].base, s[j].length);
        assert r[j].kind == kind && FullyInside(f, r[j].base, r[j].length);
      }
    }
  }

  lemma KindNone(kind: Word, free: set<nat>)
    ensures free + FramesOfKind([], kind) == free
  {
    assert FramesOfKind([], kind) == {};
  }

  lemma KindStepOnto(regions: seq<Region>, i: nat, kind: Word, free: set<nat>)
    requires i < |regions|
    ensures free + FramesOfKind(regions[..i + 1], kind)
            == (free + FramesOfKind(regions[..i], kind))
               + if regions[i].kind == kind then FramesIn(regions[i].base, regions[i].length) else {}
  {
    KindStep(regions, i, kind);
  }

  lemma SpannedRegion(regions: seq<Region>, i: nat, n: nat)
    requires i < |regions|
    requires forall f :: f in FramesOfKind(regions, regions[i].kind) ==> f < n
    ensures Spanned(FramesIn(regions[i].base, regions[i].length), n) == FramesIn(regions[i].base, regions[i].length)
  {
    forall f | f in FramesIn(regions[i].base, regions[i].length) ensures f < n {
      assert InRegionOfKind(f, regions, regions[i].kind);
      assert f in FramesOfKind(regions, regions[i].kind);
    }
  }

  lemma OwnFrameInside(f: nat, phys: nat, bytes: nat, base: nat, length: nat)
    requires phys % 4096 == 0 && base <= phys && phys + bytes <= base + length
    requires phys / 4096 <= f < phys / 4096 + bytes / 4096
    ensures FullyInside(f, base, length)
  {
  }

  // The bitmap's own frames come out of usable memory.
  lemma BitmapIsUsable(regions: seq<Region>, bytes: nat, phys: nat)
    requires NoWrap(regions) && BitmapPlace(regions, bytes, phys)
    ensures FrameRange(phys / 4096, bytes / 4096) <= FramesOfKind(regions, USABLE)
  {
    hide AlignUp, FrameRange;
    var k :| 0 <= k < |regions| && HasRoom(regions[k], bytes) && phys == AlignUp(regions[k].base, 4096);
    assert regions[k] in regions;
    PageAlignment(regions[k].base);
    var own := FrameRange(phys / 4096, bytes / 4096);
    forall f: nat | f in own ensures InRegionOfKind(f, regions, USABLE) && f < TWO64 {
      OwnFrameInside(f, phys, bytes, regions[k].base, regions[k].length);
      assert InRegionOfKind(f, regions, USABLE);
    }
  }

  /** The state pmm_init establishes. */
  ghost function AfterInit(regions: seq<Region>, frameCount: nat, bitmapPhys: nat, bitmapBytes: nat): Frames.State {
    var usable := FramesOfKind(regions, USABLE);
    var reserved := {0} + FrameRange(bitmapPhys / 4096, bitmapBytes / 4096);
    Frames.State(frameCount, usable - reserved, {}, usable, reserved, 0)
  }

  /** Which frames are free after pmm_init: those fully inside a usable (0)
      region, but for frame 0 and the pages of the bitmap. */
  lemma AfterInitMeaning(regions: seq<Region>, frameCount: nat, bitmapPhys: nat, bitmapBytes: nat, f: nat)
    requires bitmapPhys % 4096 == 0 && bitmapBytes % 4096 == 0 && f < TWO64
    ensures f in AfterInit(regions, frameCount, bitmapPhys, bitmapBytes).free <==>
              && f != 0 && !(bitmapPhys <= 4096 * f < bitmapPhys + bitmapBytes)
              && exists r :: r in regions && r.kind == 0
                             && r.base <= 4096 * f && 4096 * f + 4096 <= r.base + r.length
    ensures AfterInit(regions, frameCount, bitmapPhys, bitmapBytes).held == {}
  {
    KindMeaning(regions, 0, f);
    assert f in FrameRange(bitmapPhys / 4096, bitmapBytes / 4096) <==>
           bitmapPhys <= 4096 * f < bitmapPhys + bitmapBytes;
  }

  /** Which frames pmm_reclaim_bootloader adds: those fully inside a
      bootloader-reclaimable (5) region, but for frame 0. */
  lemma ReclaimMeaning(regions: seq<Region>, s: Frames.State, f: nat)
    requires f < TWO64
    ensures f in ReclaimStep(s, FramesOfKind(regions, BOOTLOADER_RECLAIMABLE)).free <==>
              || f in s.free
              || (f != 0 && exists r :: r in regions && r.kind == 5
                                        && r.base <= 4096 * f && 4096 * f + 4096 <= r.base + r.length)
  {
    KindMeaning(regions, 5, f);
  }

  lemma KindMeaning(regions: seq<Region>, kind: Word, f: nat)
    requires f < TWO64
    ensures f in FramesOfKind(regions, kind) <==>
              exists r :: r in regions && r.kind == kind
                          && r.base <= 4096 * f && 4096 * f + 4096 <= r.base + r.length
  {
    if r :| r in regions && r.kind == kind && r.base <= 4096 * f && 4096 * f + 4096 <= r.base + r.length {
      var i :| 0 <= i < |regions| && regions[i] == r;
      assert FullyInside(f, regions[i].base, regions[i].length);
    }
    if i :| 0 <= i < |regions| && regions[i].kind == kind && FullyInside(f, regions[i].base, regions[i].length) {
      assert regions[i] in regions;
    }
  }

  lemma AfterInitKeepsInv(regions: seq<Region>, frameCount: nat, bitmapPhys: nat, bitmapBytes: nat)
    requires forall f :: f in FramesOfKind(regions, USABLE) ==> f < frameCount
    requires FrameRange(bitmapPhys / 4096, bitmapBytes / 4096) <= FramesOfKind(regions, USABLE)
    ensures Inv(AfterInit(regions, frameCount, bitmapPhys, bitmapBytes))
  {
  }

  lemma AfterInitFields(regions: seq<Region>, frameCount: nat, bitmapPhys: nat, bitmapBytes: nat)
    requires NoWrap(regions) && SpansMemory(regions, frameCount)
    requires BitmapPlace(regions, bitmapBytes, bitmapPhys)
    ensures var s := AfterInit(regions, frameCount, bitmapPhys, bitmapBytes);
            && Inv(s) && s.frameCount == frameCount && s.hint == 0
            && s.managed == FramesOfKind(regions, USABLE)
  {
    hide FramesOfKind;
    TrackedFramesAreSpanned(regions, frameCount, USABLE);
    BitmapIsUsable(regions, bitmapBytes, bitmapPhys);
    AfterInitKeepsInv(regions, frameCount, bitmapPhys, bitmapBytes);
  }

  // Usable and reclaimable frames lie below the frame count.
  lemma TrackedFramesAreSpanned(regions: seq<Region>, n: nat, kind: Word)
    requires SpansMemory(regions, n) && (kind == USABLE || kind == BOOTLOADER_RECLAIMABLE)
    ensures forall f :: f in FramesOfKind(regions, kind) ==> f < n
  {
    forall f | f in FramesOfKind(regions, kind) ensures f < n {
      var i :| 0 <= i < |regions| && regions[i].kind == kind && FullyInside(f, regions[i].base, regions[i].length);
      assert regions[i] in regions && Tracked(regions[i]);
    }
  }

  // avail in pmm_init, with its unsigned wrap-around
  function Avail(r: Region): Word
  {
    (r.base + r.length - AlignUp(r.base, 4096)) % TWO64
  }

  /** The size test of pmm_init finds room exactly for regions that reach
      their first page boundary; a shorter region wraps and always passes. */
  lemma BitmapRoomCheck(r: Region, bytes: nat)
    requires r.base + r.length + 4096 <= TWO64 && 0 < bytes <= TWO64 - 4096
    ensures (Avail(r) >= bytes ==> AlignUp(r.base, 4096) + bytes <= r.base + r.length)
            <==> AlignUp(r.base, 4096) <= r.base + r.length
  {
    PageAlignment(r.base);
  }

  // For example a usable region of 256 bytes in the middle of a page.
  lemma TinyUsableRegionPassesRoomCheck(r: Region)
    requires r.base == 0x1800 && r.length == 0x100
    ensures Avail(r) >= 0x10_0000 && AlignUp(r.base, 4096) > r.base + r.length
  {
    var up := AlignUp(r.base, 4096);
    assert up == 0x2000 by { PageAlignment(r.base); }
    assert (r.base + r.length - up) % TWO64 == TWO64 - 0x700;
  }

  // The region passes the size test of pmm_init.
  predicate Passes(r: Region, bytes: nat) { r.kind == USABLE && Avail(r) >= bytes }

  /** The size test, with its wrap-around, in numbers. */
  lemma PassesMeaning(r: Region, bytes: nat)
    requires r.base + 4096 <= TWO64
    ensures Passes(r, bytes) <==>
              r.kind == 0 && (r.base + r.length - (r.base + 4095) / 4096 * 4096) % 0x1_0000_0000_0000_0000 >= bytes
  {
    hide AlignUp;
    PageAlignment(r.base);
  }

  ghost predicate FirstPassing(regions: seq<Region>, bytes: nat, k: nat) {
    k < |regions| && Passes(regions[k], bytes) && forall j :: 0 <= j < k ==> !Passes(regions[j], bytes)
  }

  // The first region that passes the test for the bitmap of this memory map
  // reaches its first page boundary.
  ghost predicate WellPlaced(regions: seq<Region>) {
    forall n: nat, bytes: nat, k: nat ::
      SpansMemory(regions, n) && BitmapSize(bytes, n) && FirstPassing(regions, bytes, k) ==> ReachesPage(regions[k])
  }

  predicate ReachesPage(r: Region) { AlignUp(r.base, 4096) <= r.base + r.length }

  // Page-aligned entries, which the boot protocol promises, are well placed.
  lemma AlignedIsWellPlaced(regions: seq<Region>)
    requires NoWrap(regions) && forall r :: r in regions && r.kind == USABLE ==> r.base % 4096 == 0
    ensures WellPlaced(regions)
  {
    hide SpansMemory, BitmapSize, ReachesPage, Avail;
    forall k: nat | k < |regions| && regions[k].kind == USABLE ensures ReachesPage(regions[k]) {
      assert regions[k] in regions;
      AlignedReaches(regions[k]);
    }
  }

  lemma AlignedReaches(r: Region)
    requires r.base + r.length + 4096 <= TWO64 && r.base % 4096 == 0
    ensures ReachesPage(r)
  {
    hide AlignUp;
    PageAlignment(r.base);
  }

  // Whatever has room passes the test.
  lemma RoomPasses(r: Region, bytes: nat)
    requires r.base + r.length + 4096 <= TWO64 && HasRoom(r, bytes)
    ensures Passes(r, bytes)
  {
    RoomCheck(r, bytes);
  }

  /** The first region that passes is the first one with room, if it reaches a
      page boundary. */
  lemma FirstPassingHasRoom(regions: seq<Region>, bytes: nat, k: nat)
    requires NoWrap(regions) && FirstPassing(regions, bytes, k) && ReachesPage(regions[k])
    ensures BitmapPlace(regions, bytes, AlignUp(regions[k].base, 4096)) && HasRoom(regions[k], bytes)
  {
    hide AlignUp, Avail;
    assert regions[k] in regions;
    RoomCheck(regions[k], bytes);
    forall j | 0 <= j < k ensures !HasRoom(regions[j], bytes) {
      assert regions[j] in regions;
      if HasRoom(regions[j], bytes) {
        RoomPasses(regions[j], bytes);
      }
    }
  }

  lemma {:induction false} FirstExists(regions: seq<Region>, bytes: nat, k: nat)
    requires k < |regions| && Passes(regions[k], bytes)
    ensures exists j: nat :: FirstPassing(regions, bytes, j)
    decreases k
  {
    hide Passes;
    if j: nat :| j < k && Passes(regions[j], bytes) {
      FirstExists(regions, bytes, j);
    } else {
      assert FirstPassing(regions, bytes, k);
    }
  }

  lemma NothingPasses(regions: seq<Region>, bytes: nat)
    requires NoWrap(regions) && !exists k: nat :: FirstPassing(regions, bytes, k)
    ensures !exists r :: r in regions && HasRoom(r, bytes)
  {
    hide Passes, HasRoom;
    if r :| r in regions && HasRoom(r, bytes) {
      RoomPasses(r, bytes);
      var k: nat :| k < |regions| && regions[k] == r;
      FirstExists(regions, bytes, k);
    }
  }

  /** The states pmm_init can leave behind. */
  ghost predicate IsAfterInit(regions: seq<Region>, s: Frames.State) {
    exists n, bytes, phys ::
      && SpansMemory(regions, n) && BitmapSize(bytes, n) && BitmapPlace(regions, bytes, phys)
      && s == AfterInit(regions, n, phys, bytes)
  }

  lemma SpanUnique(regions: seq<Region>, n: nat, n': nat)
    requires SpansMemory(regions, n) && SpansMemory(regions, n')
    ensures n <= n'
  {
    if n > 0 {
      var r :| r in regions && Tracked(r) && r.base + r.length > (n - 1) * 4096;
    }
  }

  lemma SizeUnique(bytes: nat, bytes': nat, n: nat)
    requires BitmapSize(bytes, n) && BitmapSize(bytes', n)
    ensures bytes == bytes'
  {
  }

  lemma PlaceUnique(regions: seq<Region>, bytes: nat, phys: nat, phys': nat)
    requires BitmapPlace(regions, bytes, phys) && BitmapPlace(regions, bytes, phys')
    ensures phys == phys'
  {
    hide HasRoom, AlignUp;
    var k :| 0 <= k < |regions| && HasRoom(regions[k], bytes) && phys == AlignUp(regions[k].base, 4096)
             && forall j :: 0 <= j < k ==> !HasRoom(regions[j], bytes);
    var k' :| 0 <= k' < |regions| && HasRoom(regions[k'], bytes) && phys' == AlignUp(regions[k'].base, 4096)
              && forall j :: 0 <= j < k' ==> !HasRoom(regions[j], bytes);
    assert k == k';
  }

  /** The memory map determines the state after pmm_init. */
  lemma AfterInitUnique(regions: seq<Region>, s: Frames.State, s': Frames.State)
    requires IsAfterInit(regions, s) && IsAfterInit(regions, s')
    ensures s == s'
  {
    hide SpansMemory, BitmapSize, BitmapPlace, AfterInit;
    var n, bytes, phys :| SpansMemory(regions, n) && BitmapSize(bytes, n) && BitmapPlace(regions, bytes, phys)
                          && s == AfterInit(regions, n, phys, bytes);
    var n', bytes', phys' :| SpansMemory(regions, n') && BitmapSize(bytes', n') && BitmapPlace(regions, bytes', phys')
                             && s' == AfterInit(regions, n', phys', bytes');
    SpanUnique(regions, n, n');
    SpanUnique(regions, n', n);
    SizeUnique(bytes, bytes', n);
    PlaceUnique(regions, bytes, phys, phys');
  }

  // ------------------------------------------------------------ single bits

  predicate Bit(b: bv8, k: nat)
    requires k < 8
  {
    (b >> k) & 1 == 1
  }

  lemma SetBit(b: bv8, k: nat, j: nat)
    requires k < 8 && j < 8
    ensures Bit(b | (1 << k), j) == (j == k || Bit(b, j))
  {
  }

  lemma ClearBit(b: bv8, k: nat, j: nat)
    requires k < 8 && j < 8
    ensures Bit(b & !(1 << k), j) == (j != k && Bit(b, j))
  {
  }

  lemma SameBits(a: bv8, b: bv8)
    requires forall k: nat :: k < 8 ==> Bit(a, k) == Bit(b, k)
    ensures a == b
  {
    assert Bit(a, 0) == Bit(b, 0) && Bit(a, 1) == Bit(b, 1);
    assert Bit(a, 2) == Bit(b, 2) && Bit(a, 3) == Bit(b, 3);
    assert Bit(a, 4) == Bit(b, 4) && Bit(a, 5) == Bit(b, 5);
    assert Bit(a, 6) == Bit(b, 6) && Bit(a, 7) == Bit(b, 7);
  }

  predicate Used(bytes: seq<bv8>, i: nat)
    requires i < 8 * |bytes|
  {
    Bit(bytes[i / 8], i % 8)
  }

  // The bitmap is determined by the set of clear bits.
  ghost predicate Describes(bytes: seq<bv8>, free: set<nat>) {
    forall i: nat {:trigger Used(bytes, i)} :: i < 8 * |bytes| ==> (Used(bytes, i) <==> i !in free)
  }

  lemma AllSet(bytes: seq<bv8>)
    requires forall n :: 0 <= n < |bytes| ==> bytes[n] == 0xFF
    ensures Describes(bytes, {})
  {
    forall i: nat | i < 8 * |bytes| ensures Used(bytes, i) {
      assert bytes[i / 8] == 0xFF;
      assert forall k: nat :: k < 8 ==> Bit(0xFF, k);
    }
  }

  lemma BitmapDetermined(a: seq<bv8>, b: seq<bv8>, free: set<nat>)
    requires |a| == |b| && Describes(a, free) && Describes(b, free)
    ensures a == b
  {
    forall n | 0 <= n < |a| ensures a[n] == b[n] {
      forall k: nat | k < 8 ensures Bit(a[n], k) == Bit(b[n], k) {
        assert Used(a, 8 * n + k) == Used(b, 8 * n + k);
      }
      SameBits(a[n], b[n]);
    }
  }

  lemma SetDescribes(bytes: seq<bv8>, free: set<nat>, i: nat)
    requires i < 8 * |bytes| && Describes(bytes, free)
    ensures Describes(bytes[i / 8 := bytes[i / 8] | (1 << (i % 8))], free - {i})
  {
    hide Bit;
    var b := bytes[i / 8 := bytes[i / 8] | (1 << (i % 8))];
    forall j: nat {:trigger Used(b, j)} | j < 8 * |b| ensures Used(b, j) <==> j !in free - {i} {
      assert Used(bytes, j) <==> j !in free;
      SetBit(bytes[i / 8], i % 8, j % 8);
    }
  }

  lemma ClearDescribes(bytes: seq<bv8>, free: set<nat>, i: nat)
    requires i < 8 * |bytes| && Describes(bytes, free)
    ensures Describes(bytes[i / 8 := bytes[i / 8] & !(1 << (i % 8))], free + {i})
  {
    hide Bit;
    var b := bytes[i / 8 := bytes[i / 8] & !(1 << (i % 8))];
    forall j: nat {:trigger Used(b, j)} | j < 8 * |b| ensures Used(b, j) <==> j !in free + {i} {
      assert Used(bytes, j) <==> j !in free;
      ClearBit(bytes[i / 8], i % 8, j % 8);
    }
  }

  method Memset(a: array<bv8>, value: bv8)
    modifies a
    ensures forall i :: 0 <= i < a.Length ==> a[i] == value
  {
    for n := 0 to a.Length
      invariant forall i :: 0 <= i < n ==> a[i] == value
    {
      a[n] := value;
    }
  }

  method BmTest(bitmap: array<bv8>, i: nat, ghost free: set<nat>) returns (used: bool)
    requires i < 8 * bitmap.Length && Describes(bitmap[..], free)
    ensures used <==> i !in free
  {
    used := Bit(bitmap[i / 8], i % 8);
    assert used == Used(bitmap[..], i);
  }

  method BmSet(bitmap: array<bv8>, i: nat, ghost free: set<nat>)
    requires i < 8 * bitmap.Length && Describes(bitmap[..], free)
    modifies bitmap
    ensures Describes(bitmap[..], free - {i})
  {
    ghost var was := bitmap[..];
    bitmap[i / 8] := bitmap[i / 8] | (1 << (i % 8));
    SetDescribes(was, free, i);
    assert bitmap[..] == was[i / 8 := was[i / 8] | (1 << (i % 8))];
  }

  method BmClear(bitmap: array<bv8>, i: nat, ghost free: set<nat>)
    requires i < 8 * bitmap.Length && Describes(bitmap[..], free)
    modifies bitmap
    ensures Describes(bitmap[..], free + {i})
  {
    ghost var was := bitmap[..];
    bitmap[i / 8] := bitmap[i / 8] & !(1 << (i % 8));
    ClearDescribes(was, free, i);
    assert bitmap[..] == was[i / 8 := was[i / 8] & !(1 << (i % 8))];
  }

  // ------------------------------------------------------------ the allocator

  lemma WithoutNull(s: Frames.State, frames: set<nat>)
    requires Inv(s)
    ensures s.free + frames - {0} == ReclaimStep(s, frames).free
  {
  }

  // Whole frames lie between the bounds, rounded inwards.
  lemma InsideBounds(f: nat, base: nat, length: nat)
    requires base + length + 4096 <= TWO64
    ensures FullyInside(f, base, length) <==> (base + 4096 - 1) / 4096 <= f < (base + length) / 4096
    ensures FullyInside(f, base, length) ==> f < TWO64
  {
  }

  class FrameAllocator {
    var bitmap: array<bv8>
    var frameCount: nat
    var bitmapBytes: nat
    var freeFramesN: nat
    var totalFrames: nat
    var scanHint: nat
    // The abstraction.
    ghost var view: Frames.State

    constructor ()
    {
      bitmap := new bv8[0];
      frameCount, bitmapBytes, freeFramesN, totalFrames, scanHint := 0, 0, 0, 0, 0;
      view := Frames.State(0, {}, {}, {}, {}, 0);
    }

    // The bitmap, the counters and the hint agree with the abstraction.
    ghost predicate Valid()
      reads this, bitmap
    {
      && Inv(view)
      && frameCount == view.frameCount <= 8 * bitmap.Length
      && Describes(bitmap[..], view.free)
      && freeFramesN == |view.free|
      && totalFrames == |view.managed|
      && scanHint == view.hint
    }

    lemma ValidFacts()
      requires Valid()
      ensures Inv(view) && frameCount == view.frameCount
    {
    }

    /** free_region: every frame fully inside [base, base + length) that the
        bitmap spans becomes free, counted once. */
    method FreeRegion(base: Word, length: Word, ghost free: set<nat>) returns (ghost free': set<nat>)
      requires base + length + 4096 <= TWO64
      requires frameCount <= 8 * bitmap.Length && Describes(bitmap[..], free) && freeFramesN == |free|
      modifies this`freeFramesN, bitmap
      ensures free' == free + Spanned(FramesIn(base, length), frameCount)
      ensures Describes(bitmap[..], free') && freeFramesN == |free'|
    {
      var start, end := RegionBounds(base, length);
      free' := free;
      var i := start;
      while i < end && i < frameCount
        invariant start <= i
        invariant Describes(bitmap[..], free') && freeFramesN == |free'|
        invariant forall f: nat :: f in free' <==> f in free || (start <= f < i && f < frameCount && f < end)
      {
        var used := BmTest(bitmap, i, free');
        if used {
          BmClear(bitmap, i, free');
          free' := free' + {i};
          freeFramesN := freeFramesN + 1;
        }
        i := i + 1;
      }
    }

    // The frame bounds computed by free_region.
    static method RegionBounds(base: Word, length: Word) returns (start: nat, end: nat)
      requires base + length + 4096 <= TWO64
      ensures forall f: nat :: f in FramesIn(base, length) <==> start <= f < end
    {
      hide AlignUp, AlignDown, FullyInside;
      PageAlignment(base);
      AlignDownPage(base + length);
      start := AlignUp(base, 4096) / 4096;
      end := AlignDown(base + length, 4096) / 4096;
      forall f: nat ensures f in FramesIn(base, length) <==> start <= f < end {
        InsideBounds(f, base, length);
      }
    }

    // The inner loop of alloc_frame: the first clear bit in [start, stop).
    method FindClear(start: nat, stop: nat) returns (i: nat)
      requires Describes(bitmap[..], view.free) && stop <= 8 * bitmap.Length
      ensures start <= i && (i < stop ==> i in view.free)
      ensures forall f :: f in view.free && start <= f < stop ==> i <= f
    {
      i := start;
      while i < stop
        invariant start <= i
        invariant forall f :: f in view.free && start <= f < stop ==> i <= f
      {
        var used := BmTest(bitmap, i, view.free);
        if !used {
          return;
        }
        i := i + 1;
      }
    }

    /** alloc_frame: the lowest free frame, or 0 exactly when none is free.
        The second pass, below the hint, never succeeds. */
    method AllocFrame() returns (phys: nat)
      requires Valid()
      modifies this, bitmap
      ensures Valid() && bitmap == old(bitmap)
      ensures AllocStep(old(view), 1, phys, view)
      ensures phys == 0 <==> old(view).free == {}
      ensures phys != 0 ==> LowestFrom(old(view).free, 0, phys / 4096)
    {
      hide IsRun, Inv, Describes;
      HintMeaning(view);
      var pass := 0;
      while pass < 2
        invariant 0 <= pass <= 2
        invariant Valid() && view == old(view) && bitmap == old(bitmap)
        invariant pass >= 1 ==> view.free == {}
      {
        var start := if pass == 0 then scanHint else 0;
        var stop := if pass == 0 then frameCount else scanHint;
        var i := FindClear(start, stop);
        if i < stop {
          LowestSingle(view.free, i);
          TakeIsAllocStep(view, i, 1);
          TakeRun(i, 1);
          scanHint := i + 1;
          return i * 4096;
        }
        pass := pass + 1;
      }
      phys := 0;
      NoRunInEmpty(1);
    }

    /** The scan of alloc_frames: the lowest run of `count` clear bits. */
    method FindRun(count: nat) returns (found: bool, runStart: nat)
      requires Describes(bitmap[..], view.free) && frameCount <= 8 * bitmap.Length && count > 0
      requires forall f :: f in view.free ==> f < frameCount
      ensures found ==> LowestRun(view.free, runStart, count)
      ensures !found ==> forall t: nat :: !IsRun(view.free, t, count)
    {
      var run := 0;
      runStart := 0;
      for i := 0 to frameCount
        invariant ScanState(view.free, i, run, count)
        invariant run > 0 ==> runStart == i - run
      {
        var used := BmTest(bitmap, i, view.free);
        if !used {
          if run == 0 {
            runStart := i;
          }
          ScanFree(view.free, i, run, count);
          run := run + 1;
          if run == count {
            return true, runStart;
          }
        } else {
          ScanUsed(view.free, i, run, count);
          run := 0;
        }
      }
      found := false;
      NoRunBeyond(view.free, frameCount, count);
    }

    /** alloc_frames: the lowest run of `count` free frames, or 0 exactly when
        there is none. */
    method AllocFrames(count: nat) returns (phys: nat)
      requires Valid()
      modifies this, bitmap
      ensures Valid() && bitmap == old(bitmap)
      ensures AllocStep(old(view), count, phys, view)
    {
      if count == 0 {
        return 0;
      }
      if count == 1 {
        phys := AllocFrame();
        return;
      }
      var found, runStart := FindRun(count);
      if !found {
        return 0;
      }
      TakeIsAllocStep(view, runStart, count);
      TakeRun(runStart, count);
      phys := runStart * 4096;
    }

    // The inner loop of alloc_frames.
    method TakeRun(runStart: nat, count: nat)
      requires Describes(bitmap[..], view.free) && freeFramesN == |view.free|
      requires IsRun(view.free, runStart, count)
      requires runStart + count <= 8 * bitmap.Length
      modifies this`view, this`freeFramesN, bitmap
      ensures view == Take(old(view), runStart, count)
      ensures Describes(bitmap[..], view.free) && freeFramesN == |view.free|
    {
      var j := runStart;
      ghost var free := view.free;
      while j < runStart + count
        invariant runStart <= j <= runStart + count
        invariant forall f: nat :: f in free <==> f in view.free && !(runStart <= f < j)
        invariant view == old(view) && freeFramesN == old(freeFramesN)
        invariant Describes(bitmap[..], free)
      {
        BmSet(bitmap, j, free);
        free := free - {j};
        j := j + 1;
      }
      assert free == view.free - FrameRange(runStart, count);
      RemoveSize(view.free, FrameRange(runStart, count));
      freeFramesN := freeFramesN - count;
      view := Take(view, runStart, count);
    }

    /** free_frame: a held frame becomes free and may pull the hint down;
        frame 0, frames out of range and free frames are left alone. */
    method FreeFrame(phys: nat)
      requires Valid() && MayFree(view, phys / 4096)
      modifies this, bitmap
      ensures Valid() && bitmap == old(bitmap)
      ensures view == FreeOne(old(view), phys / 4096)
    {
      var i := phys / 4096;
      if i == 0 || i >= frameCount {
        return;
      }
      FreeOneKeepsInv(view, i);
      var used := BmTest(bitmap, i, view.free);
      if used {
        BmClear(bitmap, i, view.free);
        freeFramesN := freeFramesN + 1;
        if i < scanHint {
          scanHint := i;
        }
        view := FreeOne(view, i);
      }
    }

    method FreeFrames(phys: nat, count: nat)
      requires Valid() && phys + count * 4096 <= TWO64
      requires forall f: nat :: f in FrameRange(phys / 4096, count) ==> MayFree(view, f)
      modifies this, bitmap
      ensures Valid() && bitmap == old(bitmap)
      ensures view == FreeMany(old(view), phys / 4096, count)
    {
      ghost var start := phys / 4096;
      for i := 0 to count
        invariant Valid() && bitmap == old(bitmap)
        invariant view == FreeMany(old(view), start, i)
      {
        MayFreeNext(old(view), start, count, i);
        assert (phys + i * 4096) / 4096 == start + i;
        FreeFrame(phys + i * 4096);
      }
    }

    // Makes `next` the abstraction, once the fields agree with it.
    ghost method Commit(next: Frames.State)
      requires Inv(next)
      requires frameCount == next.frameCount <= 8 * bitmap.Length
      requires Describes(bitmap[..], next.free)
      requires freeFramesN == |next.free| && totalFrames == |next.managed| && scanHint == next.hint
      modifies this`view
      ensures Valid() && view == next
    {
      view := next;
    }

    // frame_count as computed at the start of pmm_init
    static method CountFrames(regions: seq<Region>) returns (n: nat)
      requires NoWrap(regions)
      ensures SpansMemory(regions, n) && n * 4096 < TWO64
      // usable (0) and bootloader-reclaimable (5) regions count, and no others
      ensures forall r :: r in regions && (r.kind == 0 || r.kind == 5) ==> r.base + r.length <= n * 4096
      ensures n == 0 || exists r :: r in regions && (r.kind == 0 || r.kind == 5) && r.base + r.length > (n - 1) * 4096
    {
      var highest := 0;
      for i := 0 to |regions|
        invariant forall j :: 0 <= j < i && Tracked(regions[j]) ==> regions[j].base + regions[j].length <= highest
        invariant highest > 0 ==>
            exists r :: r in regions && Tracked(r) && r.base + r.length == highest
      {
        var end := regions[i].base + regions[i].length;
        if (regions[i].kind == USABLE || regions[i].kind == BOOTLOADER_RECLAIMABLE) && end > highest {
          highest := end;
          assert Tracked(regions[i]) && regions[i] in regions;
        }
      }
      PageAlignment(highest);
      n := AlignUp(highest, 4096) / 4096;
    }

    // the search for bitmap_phys in pmm_init
    static method PlaceBitmap(regions: seq<Region>, bytes: nat) returns (found: bool, phys: nat)
      ensures found <==> exists k: nat :: FirstPassing(regions, bytes, k)
      ensures found ==> exists k: nat :: FirstPassing(regions, bytes, k) && phys == AlignUp(regions[k].base, 4096)
    {
      hide AlignUp, Avail;
      phys, found := 0, false;
      for k := 0 to |regions|
        invariant forall j :: 0 <= j < k ==> !Passes(regions[j], bytes)
      {
        if regions[k].kind == USABLE && Avail(regions[k]) >= bytes {
          phys := AlignUp(regions[k].base, 4096);
          assert FirstPassing(regions, bytes, k);
          return true, phys;
        }
      }
    }

    // The search, on a memory map that is well placed.
    static method PlaceWell(regions: seq<Region>, bytes: nat, ghost n: nat) returns (found: bool, phys: nat)
      requires NoWrap(regions) && WellPlaced(regions) && SpansMemory(regions, n) && BitmapSize(bytes, n)
      ensures found <==> exists r :: r in regions && HasRoom(r, bytes)
      ensures found ==> BitmapPlace(regions, bytes, phys)
    {
      hide AlignUp, SpansMemory, BitmapSize, HasRoom, BitmapPlace, Passes;
      found, phys := PlaceBitmap(regions, bytes);
      if found {
        ghost var k: nat :| FirstPassing(regions, bytes, k) && phys == AlignUp(regions[k].base, 4096);
        FirstPassingHasRoom(regions, bytes, k);
        assert regions[k] in regions;
      } else {
        NothingPasses(regions, bytes);
      }
    }

    // The end of pmm_init: take the bitmap's own frames and frame 0 back out.
    method CarveOut(bitmapPhys: nat, ghost free: set<nat>) returns (ghost free': set<nat>)
      requires Describes(bitmap[..], free) && freeFramesN == |free| && frameCount <= 8 * bitmap.Length
      requires forall f :: f in free ==> f < frameCount
      requires FrameRange(bitmapPhys / 4096, bitmapBytes / 4096) <= free
      modifies this`freeFramesN, bitmap
      ensures free' == free - ({0} + FrameRange(bitmapPhys / 4096, bitmapBytes / 4096))
      ensures Describes(bitmap[..], free') && freeFramesN == |free'|
    {
      hide Describes, FrameRange;
      var bmStart := bitmapPhys / 4096;
      ghost var own := FrameRange(bmStart, bitmapBytes / 4096);
      free' := MarkUsed(bmStart, bmStart + bitmapBytes / 4096, free);
      assert free' == free - own;
      free' := GuardNullFrame(free');
      assert free' == free - ({0} + own);
    }

    method MarkUsed(start: nat, end: nat, ghost free: set<nat>) returns (ghost free': set<nat>)
      requires Describes(bitmap[..], free) && freeFramesN == |free| && frameCount <= 8 * bitmap.Length
      requires forall f :: f in free ==> f < frameCount
      requires start <= end && forall f: nat :: start <= f < end ==> f in free
      modifies this`freeFramesN, bitmap
      ensures forall f: nat :: f in free' <==> f in free && !(start <= f < end)
      ensures Describes(bitmap[..], free') && freeFramesN == |free'|
    {
      free' := free;
      var i := start;
      while i < end
        invariant start <= i <= end
        invariant Describes(bitmap[..], free') && freeFramesN == |free'|
        invariant forall f: nat :: f in free' <==> f in free && !(start <= f < i)
      {
        assert i in free;
        var used := BmTest(bitmap, i, free');
        if !used {
          BmSet(bitmap, i, free');
          free' := free' - {i};
          freeFramesN := freeFramesN - 1;
        }
        i := i + 1;
      }
    }

    // Frame 0 is marked used, as address 0 means failure.
    method GuardNullFrame(ghost free: set<nat>) returns (ghost free': set<nat>)
      requires Describes(bitmap[..], free) && freeFramesN == |free| && frameCount <= 8 * bitmap.Length
      requires forall f :: f in free ==> f < frameCount
      modifies this`freeFramesN, bitmap
      ensures free' == free - {0}
      ensures Describes(bitmap[..], free') && freeFramesN == |free'|
    {
      free' := free;
      if frameCount > 0 {
        var used := BmTest(bitmap, 0, free);
        if !used {
          BmSet(bitmap, 0, free);
          free' := free - {0};
          freeFramesN := freeFramesN - 1;
        }
      }
    }

    // Frees every region of one kind, as both pmm_init and
    // pmm_reclaim_bootloader do.
    method FreeRegionsOfKind(regions: seq<Region>, kind: Word, ghost free: set<nat>) returns (ghost free': set<nat>)
      requires NoWrap(regions)
      requires forall f :: f in FramesOfKind(regions, kind) ==> f < frameCount
      requires Describes(bitmap[..], free) && freeFramesN == |free| && frameCount <= 8 * bitmap.Length
      modifies this`freeFramesN, bitmap
      ensures free' == free + FramesOfKind(regions, kind)
      ensures Describes(bitmap[..], free') && freeFramesN == |free'|
    {
      hide Describes, FramesOfKind, FramesIn, Spanned;
      KindNone(kind, free);
      assert regions[..0] == [] && regions[..|regions|] == regions;
      free' := free;
      for i := 0 to |regions|
        invariant free' == free + FramesOfKind(regions[..i], kind)
        invariant Describes(bitmap[..], free') && freeFramesN == |free'|
      {
        KindStepOnto(regions, i, kind, free);
        if regions[i].kind == kind {
          SpannedRegion(regions, i, frameCount);
          free' := FreeRegion(regions[i].base, regions[i].length, free');
        }
      }
    }

    /** pmm_init. If some usable region has room for the bitmap, the free
        frames are exactly those fully inside usable regions, each counted
        once, minus the bitmap's own frames and frame 0. */
    method Init(regions: seq<Region>) returns (found: bool, bitmapPhys: nat)
      requires NoWrap(regions) && WellPlaced(regions)
      modifies this
      ensures SpansMemory(regions, frameCount) && BitmapSize(bitmapBytes, frameCount)
      ensures bitmapBytes % 4096 == 0 && frameCount <= 8 * bitmapBytes
      ensures bitmapBytes > 0 ==> 8 * (bitmapBytes - 4096) < frameCount
      ensures found <==> exists r :: r in regions && HasRoom(r, bitmapBytes)
      ensures found ==> Valid() && fresh(bitmap) && bitmap.Length == bitmapBytes
      ensures found ==> BitmapPlace(regions, bitmapBytes, bitmapPhys)
      ensures found ==> view == AfterInit(regions, frameCount, bitmapPhys, bitmapBytes)
      ensures !found ==> unchanged(`bitmap) && unchanged(`view)
    {
      hide AfterInit, FramesOfKind, Inv, BitmapSize, SpansMemory, BitmapPlace, HasRoom;
      frameCount := CountFrames(regions);
      BitmapBytesMeaning(frameCount);
      bitmapBytes := AlignUp((frameCount + 7) / 8, 4096);
      found, bitmapPhys := PlaceWell(regions, bitmapBytes, frameCount);
      if !found {
        return;
      }
      bitmap := new bv8[bitmapBytes];
      Memset(bitmap, 0xFF);
      AllSet(bitmap[..]);
      ghost var next := AfterInit(regions, frameCount, bitmapPhys, bitmapBytes);
      AfterInitFields(regions, frameCount, bitmapPhys, bitmapBytes);
      ghost var free := FreeUsable(regions, bitmapPhys);
      scanHint := 0;
      Commit(next);
    }

    // The middle of pmm_init: free the usable regions, then carve out.
    method FreeUsable(regions: seq<Region>, bitmapPhys: nat) returns (ghost free: set<nat>)
      requires NoWrap(regions) && SpansMemory(regions, frameCount)
      requires BitmapPlace(regions, bitmapBytes, bitmapPhys)
      requires Describes(bitmap[..], {}) && frameCount <= 8 * bitmap.Length
      modifies this`freeFramesN, this`totalFrames, bitmap
      ensures free == AfterInit(regions, frameCount, bitmapPhys, bitmapBytes).free
      ensures Describes(bitmap[..], free) && freeFramesN == |free|
      ensures totalFrames == |FramesOfKind(regions, USABLE)|
    {
      hide FramesOfKind;
      freeFramesN := 0;
      TrackedFramesAreSpanned(regions, frameCount, USABLE);
      free := FreeRegionsOfKind(regions, USABLE, {});
      assert free == FramesOfKind(regions, USABLE);
      totalFrames := freeFramesN;
      BitmapIsUsable(regions, bitmapBytes, bitmapPhys);
      free := CarveOut(bitmapPhys, free);
    }

    /** pmm_reclaim_bootloader: every reclaimable frame except frame 0 becomes
        free and managed. The reclaimable frames must not be managed yet, so
        this runs at most once. */
    method ReclaimBootloader(regions: seq<Region>)
      requires Valid() && NoWrap(regions)
      requires forall f :: f in FramesOfKind(regions, BOOTLOADER_RECLAIMABLE) ==> f < frameCount
      requires FramesOfKind(regions, BOOTLOADER_RECLAIMABLE) !! view.managed
      modifies this, bitmap
      ensures Valid() && bitmap == old(bitmap)
      ensures view == ReclaimStep(old(view), FramesOfKind(regions, BOOTLOADER_RECLAIMABLE))
    {
      hide FramesOfKind, Inv, ReclaimStep;
      ghost var frames := FramesOfKind(regions, BOOTLOADER_RECLAIMABLE);
      ghost var next := ReclaimStep(view, frames);
      ReclaimKeepsInv(view, frames);
      ReclaimFields(view, frames);
      var before := freeFramesN;
      ghost var free := FreeReclaimable(regions);
      totalFrames := totalFrames + (freeFramesN - before);
      scanHint := 0;
      Commit(next);
    }

    // The loop of pmm_reclaim_bootloader, then the guard on frame 0.
    method FreeReclaimable(regions: seq<Region>) returns (ghost free: set<nat>)
      requires Valid() && NoWrap(regions)
      requires forall f :: f in FramesOfKind(regions, BOOTLOADER_RECLAIMABLE) ==> f < frameCount
      modifies this`freeFramesN, bitmap
      ensures free == ReclaimStep(view, FramesOfKind(regions, BOOTLOADER_RECLAIMABLE)).free
      ensures Describes(bitmap[..], free) && freeFramesN == |free|
    {
      hide FramesOfKind, Inv, Describes, ReclaimStep;
      ghost var frames := FramesOfKind(regions, BOOTLOADER_RECLAIMABLE);
      free := FreeRegionsOfKind(regions, BOOTLOADER_RECLAIMABLE, view.free);
      HintMeaning(view);
      free := GuardNullFrame(free);
      WithoutNull(view, frames);
    }
  }
}
