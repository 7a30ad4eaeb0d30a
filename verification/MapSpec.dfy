/** How a change inside one table of a tree-shaped address space shows up in
    the translation of the whole space. */
module MapSpec {
  import opened Machine
  import opened Bits
  import opened PageEntry
  import opened HeapMemory
  import opened PageTables

  // Walking down from f at level L along va leads through links to t at level l.
  predicate OnPath(m: Memory, f: nat, L: nat, va: Word, t: nat, l: nat)
    requires 1 <= l <= L <= 4
    decreases L
  {
    if L == l then f == t
    else IsLink(m, f, L, Idx(va, L)) && OnPath(m, Child(m, f, Idx(va, L)), L - 1, va, t, l)
  }

  // The flag bits of the entries passed on the way from level L to level l.
  function PathFlags(m: Memory, f: nat, L: nat, va: Word, l: nat): seq<Word>
    requires 1 <= l <= L <= 4
    decreases L
  {
    if L == l || !InMemory(m, f) then []
    else [FlagsOf(Entry(m, f, Idx(va, L)))] + PathFlags(m, Child(m, f, Idx(va, L)), L - 1, va, l)
  }

  // va and vb use the same entries at levels L down to l + 1.
  predicate SameAbove(va: Word, vb: Word, L: nat, l: nat)
    requires 1 <= l && L <= 4
  {
    forall k :: l < k <= L ==> Idx(va, k) == Idx(vb, k)
  }

  lemma UnchangedSubtree(m: Memory, m': Memory, t: nat, news: set<nat>, f: nat, level: nat)
    requires OnlyFrames(m, m', {t} + news) && t !in Tables(m, f, level) && news !! Tables(m, f, level)
    ensures Tables(m', f, level) == Tables(m, f, level) && (Tree(m, f, level) <==> Tree(m', f, level))
    ensures 1 <= level <= 4 ==> SameWalks(m, f, m', f, level)
  {
    forall g | g in Tables(m, f, level) ensures SameFrame(m, m', g) {
    }
    TablesFrame(m, m', f, level);
  }

  lemma {:induction false} OnPathIn(m: Memory, f: nat, L: nat, va: Word, t: nat, l: nat)
    requires 1 <= l <= L <= 4 && OnPath(m, f, L, va, t, l)
    ensures t in Tables(m, f, L)
    ensures forall g :: g in Tables(m, t, l) ==> g in Tables(m, f, L)
    decreases L
  {
    if L > l {
      var i := Idx(va, L);
      OnPathIn(m, Child(m, f, i), L - 1, va, t, l);
      SubtablesIn(m, f, L, i);
    }
  }

  // The subtables of f after a change below its entry i.
  lemma SubtablesAfter(m: Memory, m': Memory, t: nat, news: set<nat>, f: nat, L: nat, i: nat, j: nat)
    requires 1 < L <= 4 && Tree(m, f, L) && IsLink(m, f, L, i) && t in Subtables(m, f, L, i)
    requires OnlyFrames(m, m', {t} + news) && news !! Tables(m, f, L) && j != i
    ensures t != f && f !in news && SameFrame(m, m', f)
    ensures Subtables(m', f, L, j) == Subtables(m, f, L, j)
    ensures IsLink(m, f, L, j) ==>
              Tree(m', Child(m, f, j), L - 1) && SameWalks(m, Child(m, f, j), m', Child(m, f, j), L - 1)
  {
    assert f in Tables(m, f, L);
    assert SameFrame(m, m', f);
    SameFrameEntries(m, m', f, L);
    SubtablesIn(m, f, L, j);
    assert Subtables(m, f, L, i) !! Subtables(m, f, L, j);
    if IsLink(m, f, L, j) {
      UnchangedSubtree(m, m', t, news, Child(m, f, j), L - 1);
    }
  }

  // One level up: the change below entry i keeps f a tree and adds the news
  // tables.
  lemma LiftTree(m: Memory, m': Memory, t: nat, news: set<nat>, f: nat, L: nat, i: nat)
    requires 1 < L <= 4 && Tree(m, f, L) && IsLink(m, f, L, i) && t in Subtables(m, f, L, i)
    requires OnlyFrames(m, m', {t} + news) && news !! Tables(m, f, L)
    requires Tree(m', Child(m, f, i), L - 1)
    requires Tables(m', Child(m, f, i), L - 1) == Tables(m, Child(m, f, i), L - 1) + news
    ensures SameFrame(m, m', f) && IsLink(m', f, L, i) && Child(m', f, i) == Child(m, f, i)
    ensures Tree(m', f, L) && Tables(m', f, L) == Tables(m, f, L) + news
  {
    SubtablesAfter(m, m', t, news, f, L, i, 512);
    SameFrameEntries(m, m', f, L);
    forall j: nat
      ensures Subtables(m', f, L, j) == if j == i then Subtables(m, f, L, i) + news else Subtables(m, f, L, j)
      ensures IsLink(m', f, L, j) ==> Tree(m', Child(m', f, j), L - 1)
    {
      if j != i {
        SubtablesAfter(m, m', t, news, f, L, i, j);
      }
    }
    LiftSets(m, m', news, f, L, i);
  }

  lemma LiftSets(m: Memory, m': Memory, news: set<nat>, f: nat, L: nat, i: nat)
    requires 1 < L <= 4 && Tree(m, f, L) && IsLink(m, f, L, i) && InMemory(m', f)
    requires news !! Tables(m, f, L)
    requires forall j: nat :: Subtables(m', f, L, j)
               == if j == i then Subtables(m, f, L, i) + news else Subtables(m, f, L, j)
    requires forall j: nat :: IsLink(m', f, L, j) ==> Tree(m', Child(m', f, j), L - 1)
    ensures Tree(m', f, L) && Tables(m', f, L) == Tables(m, f, L) + news
  {
    forall j: nat ensures news !! Subtables(m, f, L, j) {
      SubtablesIn(m, f, L, j);
    }
    assert f in Tables(m, f, L);
    forall g ensures g in Tables(m', f, L) <==> g in Tables(m, f, L) + news {
      if g in news { assert g in Subtables(m', f, L, i); }
      if g in Tables(m, f, L) && g != f {
        var j: nat :| j < 512 && g in Subtables(m, f, L, j);
        assert g in Subtables(m', f, L, j);
      }
    }
  }

  // One level up: the walk through entry i continues below, every other walk
  // is unchanged.
  lemma LiftWalk(m: Memory, m': Memory, t: nat, news: set<nat>, f: nat, L: nat, i: nat, vb: Word)
    requires 1 < L <= 4 && Tree(m, f, L) && IsLink(m, f, L, i) && t in Subtables(m, f, L, i)
    requires OnlyFrames(m, m', {t} + news) && news !! Tables(m, f, L)
    ensures var c := Child(m, f, i);
            if Idx(vb, L) == i then
              && Walk(m, f, L, vb) == Below([FlagsOf(Entry(m, f, i))], Walk(m, c, L - 1, vb))
              && Walk(m', f, L, vb) == Below([FlagsOf(Entry(m, f, i))], Walk(m', c, L - 1, vb))
            else
              Walk(m', f, L, vb) == Walk(m, f, L, vb)
  {
    var j := Idx(vb, L);
    SubtablesAfter(m, m', t, news, f, L, i, if j == i then 512 else j);
    SameFrameEntries(m, m', f, L);
    assert Entry(m', f, j) == Entry(m, f, j);
    if IsLink(m, f, L, j) && j != i {
      assert Walk(m', Child(m, f, j), L - 1, vb) == Walk(m, Child(m, f, j), L - 1, vb);
    }
  }

  lemma BelowBelow(a: seq<Word>, b: seq<Word>, t: Translation)
    ensures Below(a, Below(b, t)) == Below(a + b, t) && Below([], t) == t
  {
    if t.Leaf? {
      assert a + (b + t.path) == a + b + t.path && [] + t.path == t.path;
    }
  }

  /** A change in table t, with new tables below it, keeps the space a tree and
      adds exactly those tables. */
  lemma {:induction false} LocalTree(m: Memory, m': Memory, f: nat, L: nat, va: Word, t: nat, l: nat, news: set<nat>)
    requires 1 <= l <= L <= 4 && Tree(m, f, L) && OnPath(m, f, L, va, t, l)
    requires OnlyFrames(m, m', {t} + news) && news !! Tables(m, f, L)
    requires Tree(m', t, l) && Tables(m', t, l) == Tables(m, t, l) + news
    ensures Tree(m', f, L) && Tables(m', f, L) == Tables(m, f, L) + news
    ensures OnPath(m', f, L, va, t, l) && PathFlags(m', f, L, va, l) == PathFlags(m, f, L, va, l)
    decreases L
  {
    if L > l {
      var i := Idx(va, L);
      var c := Child(m, f, i);
      SubtablesIn(m, f, L, i);
      OnPathIn(m, c, L - 1, va, t, l);
      LocalTree(m, m', c, L - 1, va, t, l, news);
      LiftTree(m, m', t, news, f, L, i);
      SameFrameEntries(m, m', f, L);
    }
  }

  /** The translation after a change in table t: addresses that walk through t
      see the change below the unchanged path, all others see none. */
  lemma {:induction false} LocalWalk(m: Memory, m': Memory, f: nat, L: nat, va: Word, t: nat, l: nat, news: set<nat>,
                                     vb: Word)
    requires 1 <= l <= L <= 4 && Tree(m, f, L) && OnPath(m, f, L, va, t, l)
    requires OnlyFrames(m, m', {t} + news) && news !! Tables(m, f, L)
    ensures var path := PathFlags(m, f, L, va, l);
            if SameAbove(va, vb, L, l) then
              && Walk(m, f, L, vb) == Below(path, Walk(m, t, l, vb))
              && Walk(m', f, L, vb) == Below(path, Walk(m', t, l, vb))
            else Walk(m', f, L, vb) == Walk(m, f, L, vb)
    decreases L
  {
    if L == l {
      BelowBelow([], [], Walk(m, t, l, vb));
      BelowBelow([], [], Walk(m', t, l, vb));
    } else {
      var i := Idx(va, L);
      var c := Child(m, f, i);
      SubtablesIn(m, f, L, i);
      OnPathIn(m, c, L - 1, va, t, l);
      LocalWalk(m, m', c, L - 1, va, t, l, news, vb);
      LiftWalk(m, m', t, news, f, L, i, vb);
      SameAboveStep(va, vb, L, l);
      var (a, b) := ([FlagsOf(Entry(m, f, i))], PathFlags(m, c, L - 1, va, l));
      BelowBelow(a, b, Walk(m, t, l, vb));
      BelowBelow(a, b, Walk(m', t, l, vb));
    }
  }

  lemma SameAboveStep(va: Word, vb: Word, L: nat, l: nat)
    requires 1 <= l < L <= 4
    ensures SameAbove(va, vb, L, l) <==> Idx(va, L) == Idx(vb, L) && SameAbove(va, vb, L - 1, l)
  {
  }

  // ------------------------------------------------------------ next_level

  // frame | PAGE_PRESENT | PAGE_WRITE
  function TableEntry(frame: Word): nat { Or(Or(frame, PAGE_PRESENT), PAGE_WRITE) }

  lemma TableEntryMeaning(frame: Word)
    requires frame % 4096 == 0 && frame < 0x10_0000_0000_0000
    ensures TableEntry(frame) < TWO64
    ensures ChildFrame(TableEntry(frame)) == frame / 4096 && FlagsOf(TableEntry(frame)) == 3
    ensures Present(TableEntry(frame)) && !Huge(TableEntry(frame))
  {
    OrAssoc(frame, 1, 2);
    assert Or(1, 2) == 3;
    assert AddrOf(3) == 0 by { AddrArithmetic(3); }
    JoinedEntry(frame, 3);
    FlagsArithmetic(3);
    FlagBits(frame + 3, 3);
    BitArithmetic(3);
  }

  ghost predicate ZeroFrame(m: Memory, z: nat) {
    InMemory(m, z) && forall w: nat :: w < |m| && w / 512 == z ==> m[w] == 0
  }

  lemma ZeroTable(m: Memory, z: nat, level: nat)
    requires ZeroFrame(m, z)
    ensures Tree(m, z, level) && Tables(m, z, level) == {z}
    ensures 1 <= level <= 4 ==> forall va: Word :: Walk(m, z, level, va) == NotMapped
  {
    forall i: nat | i < 512 ensures Entry(m, z, i) == 0 {
      assert (512 * z + i) / 512 == z;
    }
    BitArithmetic(0);
  }

  // m' is m with entry i of t pointing to a new, empty table in frame z.
  ghost predicate TableAdded(m: Memory, m': Memory, t: nat, i: nat, z: nat) {
    && InMemory(m, t) && i < 512 && z != t && ZeroFrame(m', z)
    && z * 4096 < 0x10_0000_0000_0000 && TableEntry(z * 4096) < TWO64
    && |m'| == |m| && Entry(m', t, i) == TableEntry(z * 4096)
    && forall w: nat :: w < |m| && w != 512 * t + i && w / 512 != z ==> m'[w] == m[w]
  }

  lemma LinkedEntries(m: Memory, m': Memory, t: nat, i: nat, z: nat, l: nat)
    requires TableAdded(m, m', t, i, z) && 1 < l <= 4
    ensures InMemory(m', t) && IsLink(m', t, l, i) && Child(m', t, i) == z
    ensures forall j: nat :: j < 512 && j != i ==> Entry(m', t, j) == Entry(m, t, j)
    ensures forall j: nat :: j != i ==> (IsLink(m', t, l, j) <==> IsLink(m, t, l, j))
    ensures OnlyFrames(m, m', {t, z})
  {
    TableEntryMeaning(z * 4096);
    assert (512 * t + i) / 512 == t;
    forall j: nat | j < 512 && j != i ensures Entry(m', t, j) == Entry(m, t, j) {
      assert (512 * t + j) / 512 == t;
    }
  }

  /** Linking an empty table changes no translation and keeps the tree. */
  lemma LinkedKeepsWalks(m: Memory, m': Memory, t: nat, i: nat, z: nat, l: nat)
    requires TableAdded(m, m', t, i, z) && 1 < l <= 4
    requires Tree(m, t, l) && z !in Tables(m, t, l) && !Present(Entry(m, t, i))
    ensures Tree(m', t, l) && Tables(m', t, l) == Tables(m, t, l) + {z}
    ensures SameWalks(m, t, m', t, l)
  {
    LinkedEntries(m, m', t, i, z, l);
    ZeroTable(m', z, l - 1);
    forall j: nat
      ensures Subtables(m', t, l, j) == if j == i then {z} else Subtables(m, t, l, j)
      ensures IsLink(m', t, l, j) ==> Tree(m', Child(m', t, j), l - 1)
      ensures IsLink(m, t, l, j) ==> SameWalks(m, Child(m, t, j), m', Child(m, t, j), l - 1)
    {
      SubtablesIn(m, t, l, j);
      if j != i && IsLink(m, t, l, j) {
        UnchangedSubtree(m, m', t, {z}, Child(m, t, j), l - 1);
      }
    }
    assert Subtables(m, t, l, i) == {};
    LinkedSets(m, m', t, i, z, l);
    LinkedWalks(m, m', t, i, z, l);
  }

  lemma LinkedSets(m: Memory, m': Memory, t: nat, i: nat, z: nat, l: nat)
    requires Tree(m, t, l) && InMemory(m', t) && i < 512 && z !in Tables(m, t, l) && z != t
    requires Subtables(m, t, l, i) == {}
    requires forall j: nat :: Subtables(m', t, l, j) == if j == i then {z} else Subtables(m, t, l, j)
    requires forall j: nat :: IsLink(m', t, l, j) ==> Tree(m', Child(m', t, j), l - 1)
    ensures Tree(m', t, l) && Tables(m', t, l) == Tables(m, t, l) + {z}
  {
    forall j: nat ensures z !in Subtables(m, t, l, j) {
      SubtablesIn(m, t, l, j);
    }
    forall g ensures g in Tables(m', t, l) <==> g in Tables(m, t, l) + {z} {
      if g == z { assert g in Subtables(m', t, l, i); }
      if g in Tables(m, t, l) && g != t {
        var j: nat :| j < 512 && g in Subtables(m, t, l, j);
        assert g in Subtables(m', t, l, j);
      }
    }
  }

  lemma LinkedWalks(m: Memory, m': Memory, t: nat, i: nat, z: nat, l: nat)
    requires TableAdded(m, m', t, i, z) && 1 < l <= 4 && !Present(Entry(m, t, i))
    requires forall j: nat :: IsLink(m, t, l, j) ==> SameWalks(m, Child(m, t, j), m', Child(m, t, j), l - 1)
    ensures SameWalks(m, t, m', t, l)
  {
    LinkedEntries(m, m', t, i, z, l);
    ZeroTable(m', z, l - 1);
    forall vb: Word ensures Walk(m', t, l, vb) == Walk(m, t, l, vb) {
      var j := Idx(vb, l);
      if j == i {
        assert Walk(m', z, l - 1, vb) == NotMapped;
      } else if IsLink(m, t, l, j) {
        assert Walk(m', Child(m, t, j), l - 1, vb) == Walk(m, Child(m, t, j), l - 1, vb);
      }
    }
  }

  // ------------------------------------------------------------ the mapping

  // (pa & PAGE_ADDR_MASK) | (flags & 0xFFF) | (flags & PAGE_NX)
  function PageEntryFor(pa: Word, flags: Word): nat {
    Or(Or(And(pa, PAGE_ADDR_MASK), And(flags, 0xFFF)), And(flags, PAGE_NX))
  }

  // Present entries on the way to va are links, never huge pages.
  predicate NoHuge(m: Memory, f: nat, L: nat, va: Word)
    requires 1 <= L <= 4
    decreases L
  {
    L == 1 || (InMemory(m, f) && (Present(Entry(m, f, Idx(va, L))) ==>
      IsLink(m, f, L, Idx(va, L)) && NoHuge(m, Child(m, f, Idx(va, L)), L - 1, va)))
  }

  /** How many tables are missing on the way down to va's page table. */
  function Missing(m: Memory, f: nat, L: nat, va: Word): nat
    requires 1 <= L <= 4
    decreases L
  {
    if L == 1 || !InMemory(m, f) then 0
    else if !Present(Entry(m, f, Idx(va, L))) then L - 1
    else Missing(m, Child(m, f, Idx(va, L)), L - 1, va)
  }

  // An empty table leads nowhere: everything below it is missing.
  lemma MissingInZero(m: Memory, z: nat, L: nat, va: Word)
    requires 1 <= L <= 4 && ZeroFrame(m, z)
    ensures Missing(m, z, L, va) == L - 1
  {
    if L > 1 {
      assert (512 * z + Idx(va, L)) / 512 == z;
      BitArithmetic(0);
    }
  }

  function NewTableFlags(n: nat): seq<Word> {
    if n == 0 then [] else [3] + NewTableFlags(n - 1)
  }

  /** The flags map_page leaves on the way to va: those of the tables that
      exist, and present + writable for each table it adds. */
  function PlannedFlags(m: Memory, f: nat, L: nat, va: Word): seq<Word>
    requires 1 <= L <= 4
    decreases L
  {
    if L == 1 then []
    else if InMemory(m, f) && Present(Entry(m, f, Idx(va, L))) then
      [FlagsOf(Entry(m, f, Idx(va, L)))] + PlannedFlags(m, Child(m, f, Idx(va, L)), L - 1, va)
    else NewTableFlags(L - 1)
  }

  lemma PlannedInZero(m: Memory, z: nat, L: nat, va: Word)
    requires 1 <= L <= 4 && ZeroFrame(m, z)
    ensures PlannedFlags(m, z, L, va) == NewTableFlags(L - 1) && NoHuge(m, z, L, va)
  {
    if L > 1 {
      assert (512 * z + Idx(va, L)) / 512 == z;
      BitArithmetic(0);
    }
  }

  // Following one more link extends the path.
  lemma {:induction false} PathSnoc(m: Memory, f: nat, L: nat, va: Word, t: nat, l: nat)
    requires 1 < l <= L <= 4 && OnPath(m, f, L, va, t, l) && IsLink(m, t, l, Idx(va, l))
    ensures OnPath(m, f, L, va, Child(m, t, Idx(va, l)), l - 1)
    ensures PathFlags(m, f, L, va, l - 1) == PathFlags(m, f, L, va, l) + [FlagsOf(Entry(m, t, Idx(va, l)))]
    decreases L
  {
    if L > l {
      PathSnoc(m, Child(m, f, Idx(va, L)), L - 1, va, t, l);
    }
  }

  /** Where map_page stands at level l: it has reached table t; nothing is
      mapped differently yet; the space has grown by the empty tables added. */
  ghost predicate Reached(m0: Memory, m: Memory, root: nat, va: Word, t: nat, l: nat, taken: set<nat>)
    requires 1 <= l <= 4
  {
    && Tree(m, root, 4) && OnPath(m, root, 4, va, t, l) && NoHuge(m, t, l, va)
    && SameWalks(m0, root, m, root, 4)
    && Tables(m, root, 4) == Tables(m0, root, 4) + taken
    && PathFlags(m, root, 4, va, l) + PlannedFlags(m, t, l, va) == PlannedFlags(m0, root, 4, va)
  }

  lemma ReachedFacts(m0: Memory, m: Memory, root: nat, va: Word, t: nat, l: nat, taken: set<nat>)
    requires 1 <= l <= 4 && Reached(m0, m, root, va, t, l, taken)
    ensures Tree(m, root, 4) && OnPath(m, root, 4, va, t, l)
    ensures Tables(m, root, 4) == Tables(m0, root, 4) + taken
  {
  }

  // next_level finds an existing table.
  lemma DescendExisting(m0: Memory, m: Memory, root: nat, va: Word, t: nat, l: nat, taken: set<nat>)
    requires 1 < l <= 4 && Reached(m0, m, root, va, t, l, taken)
    requires InMemory(m, t) && Present(Entry(m, t, Idx(va, l)))
    ensures Reached(m0, m, root, va, Child(m, t, Idx(va, l)), l - 1, taken)
  {
    hide Tree, Tables, Walk, SameWalks, OnPath, PathFlags, Present, Idx;
    PathSnoc(m, root, 4, va, t, l);
    var (a, b) := (PathFlags(m, root, 4, va, l), PlannedFlags(m, Child(m, t, Idx(va, l)), l - 1, va));
    assert a + [FlagsOf(Entry(m, t, Idx(va, l)))] + b == a + ([FlagsOf(Entry(m, t, Idx(va, l)))] + b);
  }

  lemma {:induction false} OnPathTree(m: Memory, f: nat, L: nat, va: Word, t: nat, l: nat)
    requires 1 <= l <= L <= 4 && Tree(m, f, L) && OnPath(m, f, L, va, t, l)
    ensures Tree(m, t, l)
    decreases L
  {
    hide Subtables, Idx, Present, IsLeaf;
    if L > l {
      OnPathTree(m, Child(m, f, Idx(va, L)), L - 1, va, t, l);
    }
  }

  // A change in t that changes no walk through t changes no walk at all.
  lemma LocalSameWalks(m: Memory, m': Memory, f: nat, L: nat, va: Word, t: nat, l: nat, news: set<nat>)
    requires 1 <= l <= L <= 4 && Tree(m, f, L) && OnPath(m, f, L, va, t, l)
    requires OnlyFrames(m, m', {t} + news) && news !! Tables(m, f, L)
    requires SameWalks(m, t, m', t, l)
    ensures SameWalks(m, f, m', f, L)
  {
    forall vb: Word ensures Walk(m', f, L, vb) == Walk(m, f, L, vb) {
      LocalWalk(m, m', f, L, va, t, l, news, vb);
      assert Walk(m', t, l, vb) == Walk(m, t, l, vb);
    }
  }

  // next_level adds an empty table z: the space.
  lemma NewTableSpace(m: Memory, m': Memory, root: nat, va: Word, t: nat, l: nat, z: nat)
    requires 1 < l <= 4 && Tree(m, root, 4) && OnPath(m, root, 4, va, t, l)
    requires InMemory(m, t) && !Present(Entry(m, t, Idx(va, l)))
    requires PageTablesGrow(m, m', root, t, Idx(va, l), z)
    ensures Tree(m', root, 4) && Tables(m', root, 4) == Tables(m, root, 4) + {z}
    ensures OnPath(m', root, 4, va, t, l) && PathFlags(m', root, 4, va, l) == PathFlags(m, root, 4, va, l)
    ensures SameWalks(m, root, m', root, 4)
  {
    var i := Idx(va, l);
    assert TableAdded(m, m', t, i, z) && z !in Tables(m, root, 4);
    OnPathTree(m, root, 4, va, t, l);
    OnPathIn(m, root, 4, va, t, l);
    LinkedEntries(m, m', t, i, z, l);
    LinkedKeepsWalks(m, m', t, i, z, l);
    LocalTree(m, m', root, 4, va, t, l, {z});
    LocalSameWalks(m, m', root, 4, va, t, l, {z});
  }

  // next_level adds an empty table z: the path.
  lemma NewTablePath(m: Memory, m': Memory, root: nat, va: Word, t: nat, l: nat, z: nat)
    requires 1 < l <= 4 && OnPath(m', root, 4, va, t, l) && TableAdded(m, m', t, Idx(va, l), z)
    requires InMemory(m, t) && !Present(Entry(m, t, Idx(va, l)))
    ensures OnPath(m', root, 4, va, z, l - 1) && NoHuge(m', z, l - 1, va)
    ensures PathFlags(m', root, 4, va, l - 1) + PlannedFlags(m', z, l - 1, va)
            == PathFlags(m', root, 4, va, l) + PlannedFlags(m, t, l, va)
  {
    hide OnPath, PathFlags, Present, FlagsOf, TableEntry, Idx;
    var i := Idx(va, l);
    LinkedEntries(m, m', t, i, z, l);
    PathSnoc(m', root, 4, va, t, l);
    PlannedInZero(m', z, l - 1, va);
    TableEntryMeaning(z * 4096);
    var (a, b) := (PathFlags(m', root, 4, va, l), NewTableFlags(l - 2));
    assert Entry(m', t, i) == TableEntry(z * 4096);
    assert PlannedFlags(m, t, l, va) == [3] + b;
    assert a + [3] + b == a + ([3] + b);
  }

  // next_level adds an empty table z.
  lemma DescendNew(m0: Memory, m: Memory, m': Memory, root: nat, va: Word, t: nat, l: nat, taken: set<nat>, z: nat)
    requires 1 < l <= 4 && Reached(m0, m, root, va, t, l, taken)
    requires InMemory(m, t) && !Present(Entry(m, t, Idx(va, l)))
    requires PageTablesGrow(m, m', root, t, Idx(va, l), z)
    ensures Reached(m0, m', root, va, z, l - 1, taken + {z})
  {
    hide Tree, Tables, Walk, OnPath, PathFlags, PlannedFlags, NoHuge, TableAdded, SameWalks, Present, Idx;
    NewTableSpace(m, m', root, va, t, l, z);
    NewTablePath(m, m', root, va, t, l, z);
    WalksTrans(m0, root, m, root, m', root, 4);
    assert Tables(m0, root, 4) + taken + {z} == Tables(m0, root, 4) + (taken + {z});
  }

  ghost predicate PageTablesGrow(m: Memory, m': Memory, root: nat, t: nat, i: nat, z: nat) {
    TableAdded(m, m', t, i, z) && z !in Tables(m, root, 4)
  }

  // The page that map_page maps: what walking to it finds afterwards.
  function MappedPage(e: Word, path: seq<Word>): Translation {
    if Present(e) then Leaf(e, 1, path) else NotMapped
  }

  /** What the mapped page translates to, in numbers: present exactly if the
      flags say so, at the address field of pa, with the low twelve flag bits and
      bit 63. */
  lemma MappedMeaning(pa: Word, flags: Word, path: seq<Word>)
    ensures var e := pa / 4096 % 0x100_0000_0000 * 4096 + flags % 4096
                     + flags / 0x8000_0000_0000_0000 * 0x8000_0000_0000_0000;
            && e == PageEntryFor(pa, flags) < TWO64
            && MappedPage(e, path) == if flags % 2 == 1 then Leaf(e, 1, path) else NotMapped
  {
    hide PageEntryFor, AddrOf, Present;
    PageEntryMeaning(pa, flags);
    AddrArithmetic(pa);
    BitArithmetic(flags);
  }

  /** The flags of the tables that map_page adds: from the first absent entry
      down, present and writable, nothing else. */
  lemma AddedFlags(m: Memory, f: nat, L: nat, va: Word, i: nat)
    requires 1 < L <= 4 && 512 * f + 512 <= |m|
    requires i == if L == 2 then va / 0x20_0000 % 512
                  else if L == 3 then va / 0x4000_0000 % 512
                  else va / 0x80_0000_0000 % 512
    requires m[512 * f + i] % 2 == 0
    ensures |PlannedFlags(m, f, L, va)| == L - 1 && forall k :: 0 <= k < L - 1 ==> PlannedFlags(m, f, L, va)[k] == 3
    ensures Missing(m, f, L, va) == L - 1
  {
    hide Idx, Present;
    IdxArithmetic(va);
    BitArithmetic(m[512 * f + i]);
    AllThrees(L - 1);
  }

  // Where a table exists already, its flags stay.
  lemma KeptFlags(m: Memory, f: nat, L: nat, va: Word, i: nat)
    requires 1 < L <= 4 && 512 * f + 512 <= |m|
    requires i == if L == 2 then va / 0x20_0000 % 512
                  else if L == 3 then va / 0x4000_0000 % 512
                  else va / 0x80_0000_0000 % 512
    requires m[512 * f + i] % 2 == 1
    ensures var e := m[512 * f + i];
            var next := e / 4096 % 0x100_0000_0000;
            && PlannedFlags(m, f, L, va) == [e - next * 4096] + PlannedFlags(m, next, L - 1, va)
            && Missing(m, f, L, va) == Missing(m, next, L - 1, va)
  {
    hide Idx, Present, AddrOf, FlagsOf, ChildFrame;
    IdxArithmetic(va);
    var e := m[512 * f + i];
    BitArithmetic(e);
    ChildArithmetic(e);
    AddrArithmetic(e);
    FlagsArithmetic(e);
  }

  lemma {:induction false} AllThrees(n: nat)
    ensures |NewTableFlags(n)| == n && forall k :: 0 <= k < n ==> NewTableFlags(n)[k] == 3
  {
    if n > 0 {
      AllThrees(n - 1);
    }
  }

  // A store into entry i of a page table, seen from the table itself.
  lemma StoreInTable(m: Memory, m': Memory, t: nat, i: nat, e: Word)
    requires InMemory(m, t) && i < 512 && m' == m[512 * t + i := e]
    ensures OnlyFrames(m, m', {t})
    ensures Tree(m', t, 1) && Tables(m', t, 1) == Tables(m, t, 1) + {}
    ensures forall vb: Word :: Walk(m', t, 1, vb) == if Idx(vb, 1) == i then MappedPage(e, []) else Walk(m, t, 1, vb)
  {
    assert (512 * t + i) / 512 == t;
  }

  /** The final store into the page table keeps the tree ... */
  lemma StoreLeafTree(m0: Memory, m: Memory, m': Memory, root: nat, va: Word, t: nat, taken: set<nat>, e: Word)
    requires Reached(m0, m, root, va, t, 1, taken) && InMemory(m, t)
    requires m' == m[512 * t + Idx(va, 1) := e]
    ensures Tree(m', root, 4) && Tables(m', root, 4) == Tables(m0, root, 4) + taken
  {
    hide *;
    ReachedFacts(m0, m, root, va, t, 1, taken);
    StoreInTable(m, m', t, Idx(va, 1), e);
    LocalTree(m, m', root, 4, va, t, 1, {});
  }

  /** ... and maps exactly one page. */
  lemma StoreLeafWalk(m0: Memory, m: Memory, m': Memory, root: nat, va: Word, t: nat, taken: set<nat>, e: Word,
                      vb: Word)
    requires Reached(m0, m, root, va, t, 1, taken) && InMemory(m, t)
    requires m' == m[512 * t + Idx(va, 1) := e]
    ensures Walk(m', root, 4, vb) == if SamePage(va, vb) then MappedPage(e, PlannedFlags(m0, root, 4, va))
                                     else Walk(m0, root, 4, vb)
  {
    var path := PlannedFlags(m0, root, 4, va);
    assert PathFlags(m, root, 4, va, 1) + [] == path;
    assert Tree(m, root, 4) && OnPath(m, root, 4, va, t, 1);
    assert Walk(m, root, 4, vb) == Walk(m0, root, 4, vb);
    assert Below(path, MappedPage(e, [])) == MappedPage(e, path) by { assert path + [] == path; }
    StoreInTable(m, m', t, Idx(va, 1), e);
    LocalWalk(m, m', root, 4, va, t, 1, {}, vb);
    SamePageMeaning(va, vb);
  }

  // Bits 47:12 agree.
  predicate SamePage(va: Word, vb: Word) {
    va / 4096 % 0x10_0000_0000 == vb / 4096 % 0x10_0000_0000
  }

  // Splits off the lowest 9-bit digit.
  lemma SplitDigit(p: nat, k: nat)
    requires k > 0
    ensures p % (512 * k) == p % 512 + 512 * (p / 512 % k)
  {
    var h := p / 512;
    var (q, s) := (h / k, h % k);
    assert h == q * k + s;
    assert p == q * (512 * k) + (512 * s + p % 512) by {
      assert 512 * (q * k) == q * (512 * k);
    }
    DivModUnique(p, 512 * k, q, 512 * s + p % 512);
  }

  // Four 9-bit digits determine 36 bits.
  lemma Digits(p: nat)
    ensures p % 0x10_0000_0000 == p % 512 + 512 * (p / 512 % 512) + 0x4_0000 * (p / 0x4_0000 % 512)
                                  + 0x800_0000 * (p / 0x800_0000 % 512)
  {
    SplitDigit(p, 0x800_0000);
    SplitDigit(p / 512, 0x4_0000);
    SplitDigit(p / 0x4_0000, 512);
  }

  lemma DigitsEqual(a: nat, b: nat, c: nat, d: nat, a': nat, b': nat, c': nat, d': nat)
    requires a < 512 && b < 512 && c < 512 && d < 512 && a' < 512 && b' < 512 && c' < 512 && d' < 512
    ensures a + 512 * b + 0x4_0000 * c + 0x800_0000 * d == a' + 512 * b' + 0x4_0000 * c' + 0x800_0000 * d'
            <==> a == a' && b == b' && c == c' && d == d'
  {
  }

  lemma SamePageMeaning(va: Word, vb: Word)
    ensures SamePage(va, vb) <==> SameAbove(va, vb, 4, 1) && Idx(va, 1) == Idx(vb, 1)
  {
    IdxArithmetic(va);
    IdxArithmetic(vb);
    Digits(va / 4096);
    Digits(vb / 4096);
    assert va / 4096 / 512 == va / 0x20_0000 && vb / 4096 / 512 == vb / 0x20_0000;
    assert va / 4096 / 0x4_0000 == va / 0x4000_0000 && vb / 4096 / 0x4_0000 == vb / 0x4000_0000;
    assert va / 4096 / 0x800_0000 == va / 0x80_0000_0000 && vb / 4096 / 0x800_0000 == vb / 0x80_0000_0000;
    DigitsEqual(Idx(va, 1), Idx(va, 2), Idx(va, 3), Idx(va, 4), Idx(vb, 1), Idx(vb, 2), Idx(vb, 3), Idx(vb, 4));
  }

  /** The entry map_page writes: the address field of pa, the low twelve flag
      bits and the no-execute bit. */
  lemma PageEntryMeaning(pa: Word, flags: Word)
    ensures PageEntryFor(pa, flags) < TWO64
    ensures AddrOf(PageEntryFor(pa, flags)) == AddrOf(pa)
    ensures PageEntryFor(pa, flags) == AddrOf(pa) + flags % 4096 + flags / PAGE_NX * PAGE_NX
    ensures Present(PageEntryFor(pa, flags)) <==> Present(flags)
  {
    hide PageEntryFor, AddrOf, Present, Huge;
    PageEntrySum(pa, flags);
    var e: Word := PageEntryFor(pa, flags);
    AddrArithmetic(pa);
    AddrArithmetic(e);
    BitArithmetic(e);
    BitArithmetic(flags);
    TopPart(flags);
    var (q, low, nx) := (pa / 4096 % 0x100_0000_0000, flags % 4096, flags / PAGE_NX * PAGE_NX);
    AddrField(q, low, nx);
    assert e == 4096 * q + low + nx;
    LowParity(flags);
  }

  lemma LowParity(flags: nat)
    ensures flags % 4096 % 2 == flags % 2
  {
    var q := flags / 4096;
    assert flags == flags % 4096 + 2 * (2048 * q);
    EvenSum(flags % 4096, 2048 * q);
  }

  lemma TopPart(flags: Word)
    ensures flags / PAGE_NX * PAGE_NX == 0 || flags / PAGE_NX * PAGE_NX == PAGE_NX
  {
    assert flags / PAGE_NX == 0 || flags / PAGE_NX == 1;
  }

  // The three parts do not overlap.
  lemma PageEntrySum(pa: Word, flags: Word)
    ensures PageEntryFor(pa, flags) == AddrOf(pa) + flags % 4096 + flags / PAGE_NX * PAGE_NX < TWO64
  {
    hide And, Or;
    var (a, low, nx) := (AddrOf(pa), And(flags, 0xFFF), And(flags, PAGE_NX));
    AddrArithmetic(pa);
    LowAndTop(flags);
    AddrArithmetic(low);
    JoinedEntry(a, low);
    JoinTop(a + low, nx);
  }

  lemma AddrField(q: nat, low: nat, nx: nat)
    requires q < 0x100_0000_0000 && low < 4096 && (nx == 0 || nx == PAGE_NX)
    ensures (4096 * q + low + nx) / 4096 % 0x100_0000_0000 == q
    ensures (4096 * q + low + nx) % 2 == low % 2
  {
    var n := nx / 4096;
    assert nx == 4096 * n && n % 0x100_0000_0000 == 0;
    assert (4096 * q + low + nx) / 4096 == q + n;
  }

  lemma LowAndTop(flags: Word)
    ensures And(flags, 0xFFF) == flags % 4096
    ensures And(flags, PAGE_NX) == flags / PAGE_NX * PAGE_NX
  {
    assert Pow2(12) == 4096 && Pow2(63) == PAGE_NX by { PowerTable(); TopBit(); }
    AndLowMask(flags, 12);
    AndBit(flags, 63);
  }

  lemma TopBit()
    ensures Pow2(63) == PAGE_NX
  {
    PowerTable();
  }

  // x | (no-execute bit), for x without that bit
  lemma JoinTop(x: Word, nx: Word)
    requires x < PAGE_NX && (nx == 0 || nx == PAGE_NX)
    ensures Or(x, nx) == x + nx < TWO64
  {
    TopBit();
    PowerTable();
    AndLowMask(x, 63);
    AndLowMask(nx, 63);
    OrOfPieces(x, nx, PAGE_NX - 1, 64);
  }
}
