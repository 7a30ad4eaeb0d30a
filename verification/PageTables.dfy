/** Four-level page tables as a structure in memory, and the address
    translation they define (Intel SDM, volume 3A, section 4.5). */
module PageTables {
  import opened Machine
  import opened PageEntry
  import opened HeapMemory

  // Entry i of the table in frame f.
  predicate InMemory(m: Memory, f: nat) { 512 * f + 512 <= |m| }

  function Entry(m: Memory, f: nat, i: nat): Word
    requires InMemory(m, f) && i < 512
  {
    m[512 * f + i]
  }

  // A present entry ends the walk at level 1, or at level 2 or 3 if huge.
  predicate IsLeaf(e: Word, level: nat) {
    level == 1 || ((level == 2 || level == 3) && Huge(e))
  }

  // Entry i of table f points to a table one level down.
  predicate IsLink(m: Memory, f: nat, level: nat, i: nat) {
    && InMemory(m, f) && i < 512 && level > 1
    && Present(Entry(m, f, i)) && !IsLeaf(Entry(m, f, i), level)
  }

  function Child(m: Memory, f: nat, i: nat): nat
    requires InMemory(m, f) && i < 512
  {
    ChildFrame(Entry(m, f, i))
  }

  // ------------------------------------------------------------ translation

  /** The outcome of a walk: the leaf entry, the level it was found at, and
      the flag bits of every entry passed on the way down. */
  datatype Translation =
    | NotMapped
    | OutsideMemory
    | Leaf(entry: Word, level: nat, path: seq<Word>)

  function Below(flags: seq<Word>, t: Translation): Translation {
    match t
    case Leaf(e, l, path) => Leaf(e, l, flags + path)
    case _ => t
  }

  function Walk(m: Memory, f: nat, level: nat, va: Word): Translation
    requires 1 <= level <= 4
    decreases level
  {
    if !InMemory(m, f) then OutsideMemory
    else
      var e := Entry(m, f, Idx(va, level));
      if !Present(e) then NotMapped
      else if IsLeaf(e, level) then Leaf(e, level, [])
      else if level == 1 then OutsideMemory
      else Below([FlagsOf(e)], Walk(m, ChildFrame(e), level - 1, va))
  }

  /** The walk in numbers: bit 0 is present, bit 7 ends the walk at levels 2
      and 3, bits 51:12 are the next table, and everything else is flags. */
  lemma WalkStep(m: Memory, f: nat, level: nat, va: Word, i: nat)
    requires 1 <= level <= 4 && 512 * f + 512 <= |m|
    requires i == if level == 1 then va / 0x1000 % 512
                  else if level == 2 then va / 0x20_0000 % 512
                  else if level == 3 then va / 0x4000_0000 % 512
                  else va / 0x80_0000_0000 % 512
    ensures var e := m[512 * f + i];
            var next := e / 4096 % 0x100_0000_0000;
            if e % 2 == 0 then Walk(m, f, level, va) == NotMapped
            else if level == 1 || ((level == 2 || level == 3) && e / 128 % 2 == 1) then
              Walk(m, f, level, va) == Leaf(e, level, [])
            else
              match Walk(m, next, level - 1, va)
              case Leaf(e', l, path) => Walk(m, f, level, va) == Leaf(e', l, [e - next * 4096] + path)
              case t => Walk(m, f, level, va) == t
  {
    hide Idx, Present, Huge, FlagsOf, ChildFrame, AddrOf;
    IdxArithmetic(va);
    var e := m[512 * f + i];
    BitArithmetic(e);
    ChildArithmetic(e);
    AddrArithmetic(e);
    FlagsArithmetic(e);
  }

  // The entries that lead to another table, in numbers.
  lemma LinkMeaning(m: Memory, f: nat, level: nat, i: nat)
    ensures IsLink(m, f, level, i) <==>
              && 512 * f + 512 <= |m| && i < 512 && level > 1
              && m[512 * f + i] % 2 == 1
              && !((level == 2 || level == 3) && m[512 * f + i] / 128 % 2 == 1)
    ensures IsLink(m, f, level, i) ==> Child(m, f, i) == m[512 * f + i] / 4096 % 0x100_0000_0000
  {
    hide Present, Huge, ChildFrame;
    if 512 * f + 512 <= |m| && i < 512 {
      BitArithmetic(m[512 * f + i]);
      ChildArithmetic(m[512 * f + i]);
    }
  }

  // ------------------------------------------------------------ structure

  /** Every table frame reachable from f. */
  ghost function Tables(m: Memory, f: nat, level: nat): set<nat>
    decreases level, 1
  {
    {f} + set i: nat, g: nat | i < 512 && g in Subtables(m, f, level, i) :: g
  }

  // The table frames reachable through entry i of f.
  ghost function Subtables(m: Memory, f: nat, level: nat, i: nat): set<nat>
    decreases level, 0
  {
    if IsLink(m, f, level, i) then Tables(m, Child(m, f, i), level - 1) else {}
  }

  /** Every table is in memory and reached by exactly one path. */
  ghost predicate Tree(m: Memory, f: nat, level: nat)
    decreases level
  {
    && InMemory(m, f)
    && (forall i: nat :: f !in Subtables(m, f, level, i))
    && (forall i: nat, j: nat :: i < j ==> Subtables(m, f, level, i) !! Subtables(m, f, level, j))
    && (forall i: nat :: IsLink(m, f, level, i) ==> Tree(m, Child(m, f, i), level - 1))
  }

  lemma {:induction false} TreeInMemory(m: Memory, f: nat, level: nat, g: nat)
    requires Tree(m, f, level) && g in Tables(m, f, level)
    ensures InMemory(m, g)
    decreases level
  {
    if g != f {
      var i: nat :| i < 512 && g in Subtables(m, f, level, i);
      TreeInMemory(m, Child(m, f, i), level - 1, g);
    }
  }

  // m and m' agree on frame f.
  ghost predicate SameFrame(m: Memory, m': Memory, f: nat) {
    |m| == |m'| && forall w: nat :: w < |m| && w / 512 == f ==> m[w] == m'[w]
  }

  // Tables f of m and f' of m' translate alike.
  ghost predicate SameWalks(m: Memory, f: nat, m': Memory, f': nat, level: nat)
    requires 1 <= level <= 4
  {
    forall va: Word :: Walk(m', f', level, va) == Walk(m, f, level, va)
  }

  lemma WalksTrans(m0: Memory, f0: nat, m1: Memory, f1: nat, m2: Memory, f2: nat, level: nat)
    requires 1 <= level <= 4
    requires SameWalks(m0, f0, m1, f1, level) && SameWalks(m1, f1, m2, f2, level)
    ensures SameWalks(m0, f0, m2, f2, level)
  {
    hide Walk;
    forall va: Word ensures Walk(m2, f2, level, va) == Walk(m0, f0, level, va) {
      assert Walk(m2, f2, level, va) == Walk(m1, f1, level, va);
    }
  }

  lemma SameFrameEntries(m: Memory, m': Memory, f: nat, level: nat)
    requires SameFrame(m, m', f)
    ensures InMemory(m, f) ==> forall i: nat :: i < 512 ==> Entry(m, f, i) == Entry(m', f, i)
    ensures forall i: nat :: IsLink(m, f, level, i) <==> IsLink(m', f, level, i)
    ensures forall i: nat :: IsLink(m, f, level, i) ==> Child(m, f, i) == Child(m', f, i)
  {
    if InMemory(m, f) {
      forall i: nat | i < 512 ensures Entry(m, f, i) == Entry(m', f, i) {
        assert (512 * f + i) / 512 == f;
      }
    }
  }

  lemma SubtablesIn(m: Memory, f: nat, level: nat, i: nat)
    ensures Subtables(m, f, level, i) <= Tables(m, f, level)
  {
  }

  // If entries agree and everything below them translates alike, so do the tables.
  lemma WalkFromEntries(m: Memory, f: nat, m': Memory, f': nat, level: nat)
    requires 1 <= level <= 4 && InMemory(m, f) && InMemory(m', f')
    requires forall i: nat {:trigger Entry(m', f', i)} :: i < 512 ==>
               && Present(Entry(m', f', i)) == Present(Entry(m, f, i))
               && (IsLeaf(Entry(m, f, i), level) && Present(Entry(m, f, i)) ==> Entry(m', f', i) == Entry(m, f, i))
               && (IsLink(m, f, level, i) ==>
                     && IsLink(m', f', level, i)
                     && FlagsOf(Entry(m', f', i)) == FlagsOf(Entry(m, f, i))
                     && SameWalks(m, Child(m, f, i), m', Child(m', f', i), level - 1))
    ensures SameWalks(m, f, m', f', level)
  {
    hide Present, Huge, FlagsOf, Idx;
    forall va: Word ensures Walk(m', f', level, va) == Walk(m, f, level, va) {
      var i := Idx(va, level);
      var e := Entry(m', f', i);
      if IsLink(m, f, level, i) {
        assert Walk(m', Child(m', f', i), level - 1, va) == Walk(m, Child(m, f, i), level - 1, va);
      }
    }
  }

  /** Structure and translation depend on the reachable tables only. */
  lemma {:induction false} TablesFrame(m: Memory, m': Memory, f: nat, level: nat)
    requires |m| == |m'| && forall g :: g in Tables(m, f, level) ==> SameFrame(m, m', g)
    ensures Tables(m', f, level) == Tables(m, f, level)
    ensures Tree(m, f, level) <==> Tree(m', f, level)
    ensures 1 <= level <= 4 ==> SameWalks(m, f, m', f, level)
    decreases level
  {
    assert f in Tables(m, f, level);
    SameFrameEntries(m, m', f, level);
    forall i: nat
      ensures Subtables(m', f, level, i) == Subtables(m, f, level, i)
      ensures IsLink(m, f, level, i) ==>
                (Tree(m, Child(m, f, i), level - 1) <==> Tree(m', Child(m, f, i), level - 1))
      ensures IsLink(m, f, level, i) && 2 <= level <= 4 ==>
                SameWalks(m, Child(m, f, i), m', Child(m, f, i), level - 1)
    {
      SubtablesIn(m, f, level, i);
      if IsLink(m, f, level, i) {
        TablesFrame(m, m', Child(m, f, i), level - 1);
      }
    }
    if 1 <= level <= 4 && InMemory(m, f) {
      WalkFromEntries(m, f, m', f, level);
    }
  }

  // ------------------------------------------------------------ counting

  /** How many tables a walk over all entries visits, a table reached by two
      paths counted twice. */
  ghost function TableCount(m: Memory, f: nat, level: nat): nat
    decreases level, 513
  {
    1 + CountBelow(m, f, level, 512)
  }

  // The same below the first n entries of f.
  ghost function CountBelow(m: Memory, f: nat, level: nat, n: nat): nat
    requires n <= 512
    decreases level, n
  {
    if n == 0 then 0
    else
      CountBelow(m, f, level, n - 1)
      + if IsLink(m, f, level, n - 1) then TableCount(m, Child(m, f, n - 1), level - 1) else 0
  }

  lemma {:induction false} CountGrows(m: Memory, f: nat, level: nat, i: nat, n: nat)
    requires i <= n <= 512
    ensures CountBelow(m, f, level, i) <= CountBelow(m, f, level, n)
    decreases n
  {
    if i < n {
      CountGrows(m, f, level, i, n - 1);
    }
  }

  // The count depends on the reachable tables only.
  lemma {:induction false} CountFrame(m: Memory, m': Memory, f: nat, level: nat)
    requires |m| == |m'| && forall g :: g in Tables(m, f, level) ==> SameFrame(m, m', g)
    ensures TableCount(m', f, level) == TableCount(m, f, level)
    decreases level, 513
  {
    CountBelowFrame(m, m', f, level, 512);
  }

  lemma {:induction false} CountBelowFrame(m: Memory, m': Memory, f: nat, level: nat, n: nat)
    requires |m| == |m'| && n <= 512 && forall g :: g in Tables(m, f, level) ==> SameFrame(m, m', g)
    ensures CountBelow(m', f, level, n) == CountBelow(m, f, level, n)
    decreases level, n
  {
    assert f in Tables(m, f, level);
    SameFrameEntries(m, m', f, level);
    if n > 0 {
      CountBelowFrame(m, m', f, level, n - 1);
      if IsLink(m, f, level, n - 1) {
        SubtablesIn(m, f, level, n - 1);
        CountFrame(m, m', Child(m, f, n - 1), level - 1);
      }
    }
  }

  // The tables below the first n entries.
  ghost function TablesBelow(m: Memory, f: nat, level: nat, n: nat): set<nat> {
    set i: nat, g: nat | i < n && g in Subtables(m, f, level, i) :: g
  }

  lemma TablesBelowStep(m: Memory, f: nat, level: nat, n: nat)
    ensures TablesBelow(m, f, level, n + 1) == TablesBelow(m, f, level, n) + Subtables(m, f, level, n)
  {
    hide Subtables;
  }

  lemma TablesAreBelow(m: Memory, f: nat, level: nat)
    ensures Tables(m, f, level) == {f} + TablesBelow(m, f, level, 512)
  {
    hide Subtables;
  }

  lemma UnionSize(a: set<nat>, b: set<nat>)
    ensures |a + b| <= |a| + |b|
    ensures |a + b| == |a| + |b| <==> a !! b
  {
    var common := a * b;
    assert a + b == a + (b - common) && b == (b - common) + common;
    assert |a + (b - common)| == |a| + |b - common| && |b| == |b - common| + |common|;
    assert |common| == 0 <==> common == {};
  }

  /** The count is never below the number of tables. */
  lemma {:induction false} CountCovers(m: Memory, f: nat, level: nat)
    ensures |Tables(m, f, level)| <= TableCount(m, f, level)
    decreases level, 513
  {
    CountCoversBelow(m, f, level, 512);
    TablesAreBelow(m, f, level);
    UnionSize({f}, TablesBelow(m, f, level, 512));
  }

  lemma {:induction false} CountCoversBelow(m: Memory, f: nat, level: nat, n: nat)
    requires n <= 512
    ensures |TablesBelow(m, f, level, n)| <= CountBelow(m, f, level, n)
    decreases level, n
  {
    if n == 0 {
      assert TablesBelow(m, f, level, 0) == {};
    } else {
      CountCoversBelow(m, f, level, n - 1);
      TablesBelowStep(m, f, level, n - 1);
      UnionSize(TablesBelow(m, f, level, n - 1), Subtables(m, f, level, n - 1));
      if IsLink(m, f, level, n - 1) {
        CountCovers(m, Child(m, f, n - 1), level - 1);
      }
    }
  }

  // The tables behind entry i are counted exactly once.
  ghost predicate TightAt(m: Memory, f: nat, level: nat, i: nat) {
    IsLink(m, f, level, i) ==> TableCount(m, Child(m, f, i), level - 1) == |Tables(m, Child(m, f, i), level - 1)|
  }

  ghost predicate ApartAt(m: Memory, f: nat, level: nat, i: nat, j: nat) {
    Subtables(m, f, level, i) !! Subtables(m, f, level, j)
  }

  // What the first n entries lead to is counted exactly once.
  ghost predicate Tight(m: Memory, f: nat, level: nat, n: nat) {
    && (forall i: nat :: i < n ==> TightAt(m, f, level, i))
    && (forall i: nat, j: nat :: i < j < n ==> ApartAt(m, f, level, i, j))
  }

  lemma {:induction false} CountIsTight(m: Memory, f: nat, level: nat, n: nat)
    requires n <= 512
    ensures CountBelow(m, f, level, n) == |TablesBelow(m, f, level, n)| <==> Tight(m, f, level, n)
    decreases n
  {
    if n == 0 {
      assert TablesBelow(m, f, level, 0) == {};
    } else {
      var (u, s) := (TablesBelow(m, f, level, n - 1), Subtables(m, f, level, n - 1));
      CountIsTight(m, f, level, n - 1);
      CountCoversBelow(m, f, level, n - 1);
      TablesBelowStep(m, f, level, n - 1);
      UnionSize(u, s);
      if IsLink(m, f, level, n - 1) {
        CountCovers(m, Child(m, f, n - 1), level - 1);
      }
      ApartFromBelow(m, f, level, n - 1);
      TightStep(m, f, level, n - 1);
    }
  }

  lemma ApartFromBelow(m: Memory, f: nat, level: nat, n: nat)
    ensures TablesBelow(m, f, level, n) !! Subtables(m, f, level, n)
            <==> forall i: nat :: i < n ==> ApartAt(m, f, level, i, n)
  {
    var (u, s) := (TablesBelow(m, f, level, n), Subtables(m, f, level, n));
    forall i: nat | i < n && u !! s ensures ApartAt(m, f, level, i, n) {
      assert Subtables(m, f, level, i) <= u;
    }
    forall g | g in u && g in s ensures exists i: nat :: i < n && !ApartAt(m, f, level, i, n) {
      var i: nat :| i < n && g in Subtables(m, f, level, i);
      assert !ApartAt(m, f, level, i, n);
    }
  }

  lemma TightStep(m: Memory, f: nat, level: nat, n: nat)
    ensures Tight(m, f, level, n + 1) <==>
              && Tight(m, f, level, n) && TightAt(m, f, level, n)
              && (forall i: nat :: i < n ==> ApartAt(m, f, level, i, n))
  {
    hide TightAt, ApartAt;
  }

  /** Tables in memory are counted exactly once if and only if they form a
      tree: the least sharing makes the count larger. */
  lemma {:induction false} TreeCount(m: Memory, f: nat, level: nat)
    requires forall g :: g in Tables(m, f, level) ==> InMemory(m, g)
    ensures TableCount(m, f, level) == |Tables(m, f, level)| <==> Tree(m, f, level)
    decreases level
  {
    var u := TablesBelow(m, f, level, 512);
    TablesAreBelow(m, f, level);
    UnionSize({f}, u);
    CountCoversBelow(m, f, level, 512);
    CountIsTight(m, f, level, 512);
    forall i: nat | IsLink(m, f, level, i)
      ensures TightAt(m, f, level, i) <==> Tree(m, Child(m, f, i), level - 1)
    {
      SubtablesIn(m, f, level, i);
      TreeCount(m, Child(m, f, i), level - 1);
    }
    TreeIsTight(m, f, level);
  }

  lemma TreeIsTight(m: Memory, f: nat, level: nat)
    requires InMemory(m, f)
    requires forall i: nat :: IsLink(m, f, level, i) ==>
               (TightAt(m, f, level, i) <==> Tree(m, Child(m, f, i), level - 1))
    ensures Tree(m, f, level) <==> f !in TablesBelow(m, f, level, 512) && Tight(m, f, level, 512)
  {
    var u := TablesBelow(m, f, level, 512);
    forall i: nat ensures f in Subtables(m, f, level, i) ==> f in u {
      assert i >= 512 ==> Subtables(m, f, level, i) == {};
    }
    forall i: nat, j: nat | i < j && Tight(m, f, level, 512)
      ensures Subtables(m, f, level, i) !! Subtables(m, f, level, j)
    {
      assert j < 512 ==> ApartAt(m, f, level, i, j);
    }
    forall i: nat | IsLink(m, f, level, i) && Tight(m, f, level, 512) ensures Tree(m, Child(m, f, i), level - 1) {
      assert TightAt(m, f, level, i);
    }
  }

  lemma DisjointSize(a: set<nat>, b: set<nat>)
    requires a !! b
    ensures |a + b| == |a| + |b|
  {
    UnionSize(a, b);
  }

  // ------------------------------------------------------------ paths

  // Following the entry indices of path from f leads to table g.
  predicate LeadsTo(m: Memory, f: nat, level: nat, path: seq<nat>, g: nat)
    decreases |path|
  {
    if path == [] then f == g
    else IsLink(m, f, level, path[0]) && LeadsTo(m, Child(m, f, path[0]), level - 1, path[1..], g)
  }

  lemma {:induction false} PathStaysInside(m: Memory, f: nat, level: nat, path: seq<nat>, g: nat)
    requires LeadsTo(m, f, level, path, g)
    ensures g in Tables(m, f, level)
    ensures path != [] ==> g in Subtables(m, f, level, path[0])
    decreases |path|
  {
    if path != [] {
      PathStaysInside(m, Child(m, f, path[0]), level - 1, path[1..], g);
      SubtablesIn(m, f, level, path[0]);
    }
  }

  lemma {:induction false} TablesHavePaths(m: Memory, f: nat, level: nat, g: nat)
    requires g in Tables(m, f, level)
    ensures exists path :: LeadsTo(m, f, level, path, g)
    decreases level
  {
    if g == f {
      assert LeadsTo(m, f, level, [], g);
    } else {
      var i: nat :| i < 512 && g in Subtables(m, f, level, i);
      TablesHavePaths(m, Child(m, f, i), level - 1, g);
      var path :| LeadsTo(m, Child(m, f, i), level - 1, path, g);
      assert ([i] + path)[1..] == path;
      assert LeadsTo(m, f, level, [i] + path, g);
    }
  }

  /** In a tree every table is reached by exactly one path. */
  lemma {:induction false} TreePathsUnique(m: Memory, f: nat, level: nat, p: seq<nat>, q: seq<nat>, g: nat)
    requires Tree(m, f, level) && LeadsTo(m, f, level, p, g) && LeadsTo(m, f, level, q, g)
    ensures p == q
    decreases |p|
  {
    PathStaysInside(m, f, level, p, g);
    PathStaysInside(m, f, level, q, g);
    if p != [] && q != [] {
      assert p[0] == q[0];
      TreePathsUnique(m, Child(m, f, p[0]), level - 1, p[1..], q[1..], g);
      assert p == [p[0]] + p[1..] && q == [q[0]] + q[1..];
    }
  }
}
