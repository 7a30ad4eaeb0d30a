/** What it means for a table to be a faithful clone of another one, entry by
    entry, and how finished entries make a finished clone. */
module CloneSpec {
  import opened Machine
  import opened PageEntry
  import opened HeapMemory
  import opened PageTables

  /** Entry k of table d in m clones entry k of table src in m0; `sub` are the
      tables it leads to. */
  ghost predicate EntryDone(m: Memory, d: nat, level: nat, k: nat, m0: Memory, src: nat, sub: set<nat>)
    requires 1 <= level <= 4
  {
    && InMemory(m, d) && InMemory(m0, src) && k < 512
    && var (e, e') := (Entry(m0, src, k), Entry(m, d, k));
       if !Present(e) then e' == 0 && sub == {}
       else if IsLeaf(e, level) then e' == e && sub == {}
       else
         && IsLink(m, d, level, k)
         && FlagsOf(e') == FlagsOf(e)
         && sub == Tables(m, Child(m, d, k), level - 1)
         && Tree(m, Child(m, d, k), level - 1)
         && SameWalks(m0, Child(m0, src, k), m, Child(m, d, k), level - 1)
  }

  // What the loop of clone_table has finished: the first |subs| entries, which
  // lead to pairwise disjoint sets of tables not containing d.
  ghost predicate EntriesDone(m: Memory, d: nat, level: nat, m0: Memory, src: nat, subs: seq<set<nat>>)
    requires 1 <= level <= 4
  {
    && |subs| <= 512
    && (forall k: nat :: k < |subs| ==> EntryDone(m, d, level, k, m0, src, subs[k]))
    && (forall k: nat :: k < |subs| ==> d !in subs[k])
    && (forall j: nat, k: nat :: j < k < |subs| ==> subs[j] !! subs[k])
  }

  // What a table entry becomes in the clone: an absent entry 0, a leaf itself,
  // and a link keeps every bit outside 51:12.
  predicate ClonedEntry(e: Word, e': Word, level: nat) {
    if e % 2 == 0 then e' == 0
    else if level == 1 || ((level == 2 || level == 3) && e / 128 % 2 == 1) then e' == e
    else e' % 4096 == e % 4096 && e' / 0x10_0000_0000_0000 == e / 0x10_0000_0000_0000
  }

  ghost predicate ClonedTable(m0: Memory, src: nat, m: Memory, d: nat, level: nat) {
    && InMemory(m0, src) && InMemory(m, d)
    && forall i: nat :: i < 512 ==> ClonedEntry(Entry(m0, src, i), Entry(m, d, i), level)
  }

  /** The clone of a table, word by word. */
  lemma ClonedWords(m0: Memory, src: nat, m: Memory, d: nat, level: nat, i: nat)
    requires ClonedTable(m0, src, m, d, level) && i < 512
    ensures 512 * src + 512 <= |m0| && 512 * d + 512 <= |m|
    ensures var (e, e') := (m0[512 * src + i], m[512 * d + i]);
            && (e % 2 == 0 ==> e' == 0)
            && (e % 2 == 1 && (level == 1 || ((level == 2 || level == 3) && e / 128 % 2 == 1)) ==> e' == e)
            && (e % 2 == 1 && !(level == 1 || ((level == 2 || level == 3) && e / 128 % 2 == 1)) ==>
                  e' % 4096 == e % 4096 && e' / 0x10_0000_0000_0000 == e / 0x10_0000_0000_0000)
  {
    assert ClonedEntry(Entry(m0, src, i), Entry(m, d, i), level);
  }

  // Words with the same flags agree outside bits 51:12.
  lemma SameFlags(e: Word, e': Word)
    requires FlagsOf(e) == FlagsOf(e')
    ensures e' % 4096 == e % 4096 && e' / 0x10_0000_0000_0000 == e / 0x10_0000_0000_0000
  {
    hide FlagsOf, AddrOf;
    FlagsArithmetic(e);
    FlagsArithmetic(e');
    AddrArithmetic(e);
    AddrArithmetic(e');
    FlagField(e);
    FlagField(e');
  }

  lemma FlagField(e: nat)
    ensures e - e / 4096 % 0x100_0000_0000 * 4096 == e % 4096 + e / 0x10_0000_0000_0000 * 0x10_0000_0000_0000
  {
    var q := e / 4096;
    assert q / 0x100_0000_0000 == e / 0x10_0000_0000_0000;
  }

  lemma DoneIsCloned(m: Memory, d: nat, level: nat, k: nat, m0: Memory, src: nat, sub: set<nat>)
    requires 1 <= level <= 4 && EntryDone(m, d, level, k, m0, src, sub)
    ensures InMemory(m, d) && InMemory(m0, src) && k < 512
    ensures ClonedEntry(Entry(m0, src, k), Entry(m, d, k), level)
  {
    hide Present, Huge, FlagsOf, Tables, Tree, SameWalks;
    var (e, e') := (Entry(m0, src, k), Entry(m, d, k));
    BitArithmetic(e);
    if FlagsOf(e') == FlagsOf(e) {
      SameFlags(e, e');
    }
  }

  lemma EntriesAreCloned(m: Memory, d: nat, level: nat, m0: Memory, src: nat, subs: seq<set<nat>>)
    requires 1 <= level <= 4 && EntriesDone(m, d, level, m0, src, subs) && |subs| == 512
    ensures ClonedTable(m0, src, m, d, level)
  {
    hide EntryDone, ClonedEntry;
    assert EntryDone(m, d, level, 0, m0, src, subs[0]);
    DoneIsCloned(m, d, level, 0, m0, src, subs[0]);
    forall i: nat | i < 512 ensures ClonedEntry(Entry(m0, src, i), Entry(m, d, i), level) {
      assert EntryDone(m, d, level, i, m0, src, subs[i]);
      DoneIsCloned(m, d, level, i, m0, src, subs[i]);
    }
  }

  ghost function Union(subs: seq<set<nat>>): (u: set<nat>)
    ensures forall g :: g in u <==> exists k: nat :: k < |subs| && g in subs[k]
  {
    if subs == [] then {}
    else
      var n := |subs| - 1;
      var u := Union(subs[..n]);
      assert forall g :: g in u ==> exists k: nat :: k < n && g in subs[k];
      assert forall k: nat :: k < n ==> subs[..n][k] == subs[k];
      u + subs[n]
  }

  lemma EntryDoneKept(m: Memory, m': Memory, d: nat, level: nat, k: nat, m0: Memory, src: nat, sub: set<nat>)
    requires 1 <= level <= 4 && EntryDone(m, d, level, k, m0, src, sub)
    requires |m| == |m'| && m'[512 * d + k] == m[512 * d + k]
    requires forall g :: g in sub ==> SameFrame(m, m', g)
    ensures EntryDone(m', d, level, k, m0, src, sub)
  {
    if IsLink(m, d, level, k) {
      TablesFrame(m, m', Child(m, d, k), level - 1);
    }
  }

  lemma EntriesDoneKept(m: Memory, m': Memory, d: nat, level: nat, m0: Memory, src: nat, subs: seq<set<nat>>)
    requires 1 <= level <= 4 && EntriesDone(m, d, level, m0, src, subs)
    requires |m| == |m'| && forall w: nat :: 512 * d <= w < 512 * d + |subs| && w < |m| ==> m'[w] == m[w]
    requires forall g :: g in Union(subs) ==> SameFrame(m, m', g)
    ensures EntriesDone(m', d, level, m0, src, subs)
  {
    forall k: nat | k < |subs| ensures EntryDone(m', d, level, k, m0, src, subs[k]) {
      assert EntryDone(m, d, level, k, m0, src, subs[k]);
      EntryDoneKept(m, m', d, level, k, m0, src, subs[k]);
    }
  }

  lemma EntriesDoneAdd(m: Memory, d: nat, level: nat, m0: Memory, src: nat, subs: seq<set<nat>>, sub: set<nat>)
    requires 1 <= level <= 4 && EntriesDone(m, d, level, m0, src, subs) && |subs| < 512
    requires EntryDone(m, d, level, |subs|, m0, src, sub)
    requires d !in sub && sub !! Union(subs)
    ensures EntriesDone(m, d, level, m0, src, subs + [sub])
    ensures Union(subs + [sub]) == Union(subs) + sub
  {
    hide EntryDone;
    var all := subs + [sub];
    assert forall k: nat :: k < |subs| ==> all[k] == subs[k];
  }

  /** 512 finished entries make a tree with the same translation. */
  lemma CloneAssembled(m: Memory, d: nat, level: nat, m0: Memory, src: nat, subs: seq<set<nat>>)
    requires 1 <= level <= 4 && EntriesDone(m, d, level, m0, src, subs) && |subs| == 512
    ensures Tree(m, d, level)
    ensures Tables(m, d, level) == {d} + Union(subs)
    ensures SameWalks(m0, src, m, d, level)
  {
    assert EntryDone(m, d, level, 0, m0, src, subs[0]);
    forall i: nat ensures Subtables(m, d, level, i) == if i < 512 then subs[i] else {}
      ensures IsLink(m, d, level, i) ==> Tree(m, Child(m, d, i), level - 1)
    {
      if i < 512 {
        assert EntryDone(m, d, level, i, m0, src, subs[i]);
      }
    }
    CloneWalks(m, d, level, m0, src, subs);
  }

  lemma CloneWalks(m: Memory, d: nat, level: nat, m0: Memory, src: nat, subs: seq<set<nat>>)
    requires 1 <= level <= 4 && EntriesDone(m, d, level, m0, src, subs) && |subs| == 512
    ensures InMemory(m, d) && InMemory(m0, src) && SameWalks(m0, src, m, d, level)
  {
    assert EntryDone(m, d, level, 0, m0, src, subs[0]);
    forall i: nat {:trigger Entry(m, d, i)} | i < 512
      ensures Present(Entry(m, d, i)) == Present(Entry(m0, src, i))
      ensures IsLeaf(Entry(m0, src, i), level) && Present(Entry(m0, src, i)) ==> Entry(m, d, i) == Entry(m0, src, i)
      ensures IsLink(m0, src, level, i) ==>
                && IsLink(m, d, level, i)
                && FlagsOf(Entry(m, d, i)) == FlagsOf(Entry(m0, src, i))
                && SameWalks(m0, Child(m0, src, i), m, Child(m, d, i), level - 1)
    {
      assert EntryDone(m, d, level, i, m0, src, subs[i]);
    }
    WalkFromEntries(m0, src, m, d, level);
  }
}
