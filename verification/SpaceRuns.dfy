/** Whole runs after boot in which the kernel also maps pages into the active
    address space. */
module SpaceRuns {
  import opened Machine
  import opened PageTables
  import opened MapSpec
  import opened Paging
  import opened Boot

  // An allocator call or a caller's store, or a map_page call with its result
  // and the frames it added.
  datatype Event =
    | Service
    | Map(va: Word, entry: Word, mapped: bool, taken: set<nat>)

  /** One map_page call on the active space. */
  ghost predicate MapStep(s: Snapshot, va: Word, entry: Word, mapped: bool, taken: set<nat>, s': Snapshot) {
    && s'.root == s.root && s'.heap == s.heap && taken !! s.heap
    && SpaceGrown(s.mem, s'.mem, s.view, s'.view, s.root, taken)
    && (mapped <==> Missing(s.mem, s.root, 4, va) <= |s.view.free|)
    && (if mapped then MapsOnePage(s.mem, s'.mem, s.root, va, entry) else SameWalks(s.mem, s.root, s'.mem, s.root, 4))
  }

  ghost predicate SpaceStep(s: Snapshot, e: Event, s': Snapshot) {
    match e
    case Service => ServiceStep(s, s')
    case Map(va, entry, mapped, taken) => MapStep(s, va, entry, mapped, taken, s')
  }

  ghost predicate EventAt(states: seq<Snapshot>, events: seq<Event>, i: nat) {
    i < |events| && i + 1 < |states| ==> SpaceStep(states[i], events[i], states[i + 1])
  }

  ghost predicate SpaceRun(states: seq<Snapshot>, events: seq<Event>) {
    |states| == |events| + 1 && forall i: nat :: EventAt(states, events, i)
  }

  // The active space is a tree whose tables are neither free nor in the heap.
  ghost predicate SafeTree(s: Snapshot) { Safe(s) && Tree(s.mem, s.root, 4) }

  function Added(e: Event): set<nat> { if e.Map? then e.taken else {} }

  // The tables added by the first n events.
  function AddedBy(events: seq<Event>, n: nat): set<nat>
    requires n <= |events|
  {
    if n == 0 then {} else AddedBy(events, n - 1) + Added(events[n - 1])
  }

  // The event gives the page of va a new mapping.
  predicate Maps(e: Event, va: Word) { e.Map? && e.mapped && SamePage(e.va, va) }

  lemma MapKeepsTree(s: Snapshot, va: Word, entry: Word, mapped: bool, taken: set<nat>, s': Snapshot)
    requires SafeTree(s) && MapStep(s, va, entry, mapped, taken, s')
    ensures SafeTree(s') && s'.root == s.root && Active(s') == Active(s) + taken
  {
    hide Tree, Tables, SameWalks, MapsOnePage, Missing;
    forall g | g in Active(s') ensures InMemory(s'.mem, g) {
      TreeInMemory(s'.mem, s'.root, 4, g);
    }
  }

  lemma StepKeepsTree(s: Snapshot, e: Event, s': Snapshot)
    requires SafeTree(s) && SpaceStep(s, e, s')
    ensures SafeTree(s') && s'.root == s.root && Active(s') == Active(s) + Added(e)
  {
    hide ServiceStep, MapStep, Active, Safe;
    match e
    case Service => ServiceKeepsSpace(s, s');
    case Map(va, entry, mapped, taken) => MapKeepsTree(s, va, entry, mapped, taken, s');
  }

  lemma StepWalk(s: Snapshot, e: Event, s': Snapshot, va: Word)
    requires SafeTree(s) && SpaceStep(s, e, s') && !Maps(e, va)
    ensures Walk(s'.mem, s.root, 4, va) == Walk(s.mem, s.root, 4, va)
  {
    hide ServiceStep, Active, Safe, Walk, Tree, Tables, SpaceGrown, Missing, SamePage;
    if e.Service? {
      ServiceKeepsSpace(s, s');
    }
  }

  /** In every state of every run the active space is a tree, its tables are the
      initial ones and those added by map_page, and none is free or in the heap. */
  lemma {:induction false} SpaceRunKeepsTree(states: seq<Snapshot>, events: seq<Event>, i: nat)
    requires SpaceRun(states, events) && SafeTree(states[0]) && i < |states|
    ensures SafeTree(states[i]) && states[i].root == states[0].root
    ensures Active(states[i]) == Active(states[0]) + AddedBy(events, i)
  {
    hide SafeTree, SpaceStep, Active;
    if i > 0 {
      SpaceRunKeepsTree(states, events, i - 1);
      assert EventAt(states, events, i - 1);
      StepKeepsTree(states[i - 1], events[i - 1], states[i]);
    }
  }

  /** An address translates as before until its page is mapped. */
  lemma {:induction false} WalkStays(states: seq<Snapshot>, events: seq<Event>, i: nat, j: nat, va: Word)
    requires SpaceRun(states, events) && SafeTree(states[0]) && i <= j < |states|
    requires forall k :: i <= k < j ==> !Maps(events[k], va)
    ensures Walk(states[j].mem, states[0].root, 4, va) == Walk(states[i].mem, states[0].root, 4, va)
  {
    hide SafeTree, SpaceStep, Active, Walk, Maps;
    if i < j {
      WalkStays(states, events, i, j - 1, va);
      SpaceRunKeepsTree(states, events, j - 1);
      assert EventAt(states, events, j - 1);
      StepWalk(states[j - 1], events[j - 1], states[j], va);
    }
  }

  /** A mapped page translates to the entry stored last for it. */
  lemma LastMappingHolds(states: seq<Snapshot>, events: seq<Event>, i: nat, j: nat, va: Word)
    requires SpaceRun(states, events) && SafeTree(states[0]) && i < j < |states|
    requires Maps(events[i], va) && forall k :: i < k < j ==> !Maps(events[k], va)
    ensures Walk(states[j].mem, states[0].root, 4, va)
            == MappedPage(events[i].entry, PlannedFlags(states[i].mem, states[0].root, 4, events[i].va))
  {
    hide SafeTree, Active, Walk, SamePage, PlannedFlags, MappedPage, SpaceGrown, ServiceStep, Missing;
    SpaceRunKeepsTree(states, events, i);
    assert EventAt(states, events, i);
    WalkStays(states, events, i + 1, j, va);
  }
}
