/** How one call moves the table of frames (src/mm/paging.c), and why the accounts stay right.

    A call changes the mappings of one directory at most.  A frame then gains or loses one use with
    the entry of that directory; frames of new kernel pages are marked, those of returned ones
    cleared; all others stay as they are. */
module Accounts {
  import opened FrameTable
  import opened Holders
  import opened AddressSpaces

  ghost predicate Maps(ptes: map<Ref, Pte>, d: nat, f: nat) {
    exists r :: r in ptes && r.dir == d && ptes[r].frame == f
  }

  /** The entries of all other directories name the same frames. */
  ghost predicate OthersStay(ptes: map<Ref, Pte>, ptes': map<Ref, Pte>, d: nat) {
    && (forall r: Ref :: r in ptes && r.dir != d ==> r in ptes' && ptes'[r].frame == ptes[r].frame)
    && (forall r: Ref :: r in ptes' && r.dir != d ==> r in ptes)
  }

  ghost predicate HeapAgrees(heap: map<nat, nat>, heap': map<nat, nat>) {
    forall h :: h in heap && h in heap' ==> heap'[h] == heap[h]
  }

  /** Frame f lies under a page of `heap'` that `heap` does not have. */
  ghost predicate Gains(heap: map<nat, nat>, heap': map<nat, nat>, f: nat) {
    exists h :: h in heap' && h !in heap && heap'[h] == f
  }

  ghost function Use(maps: bool): int {
    if maps then 1 else 0
  }

  ghost function Followed(vm: Vm, wm: Vm, d: nat, f: nat): int
    requires f < |vm.frames|
  {
    if Gains(vm.heap, wm.heap, f) then KERNEL
    else (if Gains(wm.heap, vm.heap, f) then UNUSED else vm.frames[f]) + Use(Maps(wm.ptes, d, f))
         - Use(Maps(vm.ptes, d, f))
  }

  /** What a call that changes only mappings of directory d does to the table of frames. */
  ghost predicate FramesFollow(vm: Vm, wm: Vm, d: nat) {
    && |vm.frames| == |wm.frames| == SMALL_NUM
    && forall f :: 0 <= f < SMALL_NUM ==> wm.frames[f] == Followed(vm, wm, d, f)
  }

  /** A frame that may be taken: unused, and so is all that overlaps it. */
  ghost predicate Available(p: Table, f: nat) {
    && |p| == SMALL_NUM && f < SMALL_NUM && p[f] == UNUSED
    && (f >= LARGE_NUM ==> p[f / PER_LARGE] == UNUSED)
    && (f < LARGE_NUM ==> forall s :: LARGE_NUM <= s < SMALL_NUM && s / PER_LARGE == f ==> !InUse(p, s))
  }

  /** New kernel pages lie on 4 KiB frames of their own that were available. */
  ghost predicate PagesTaken(vm: Vm, wm: Vm) {
    && (forall h :: h in vm.heap ==> h in wm.heap && wm.heap[h] == vm.heap[h])
    && (forall h :: h in wm.heap && h !in vm.heap ==>
          h < HEAP_PAGES && LARGE_NUM <= wm.heap[h] && Available(vm.frames, wm.heap[h]))
    && (forall h, k :: h in wm.heap && h !in vm.heap && k in wm.heap && k !in vm.heap && h != k ==>
          wm.heap[h] != wm.heap[k])
  }

  /** The heap has grown by exactly the pages that directory `d` or its tables now occupy. */
  ghost predicate HeapGrown(vm: Vm, wm: Vm, d: nat) {
    && (forall h :: h in vm.heap ==> h in wm.heap && wm.heap[h] == vm.heap[h])
    && (forall t :: t in vm.tables ==> t in wm.tables && wm.tables[t] == vm.tables[t])
    && (forall t :: t in wm.tables && t !in vm.tables ==> t.dir == d && wm.tables[t] !in vm.heap)
    && (forall h :: h in wm.heap && h !in vm.heap ==>
          (h == d && d !in vm.dirs) || exists t :: t in wm.tables && t !in vm.tables && wm.tables[t] == h)
  }

  /** New page tables have a page of their own and stand in free user slots. */
  ghost predicate TablesPlaced(vm: Vm, wm: Vm) {
    && (forall t :: t in wm.tables && t !in vm.tables ==> NewTableOk(wm, t))
    && (forall t, u :: t in wm.tables && t !in vm.tables && u in wm.tables && u !in vm.tables && t != u ==>
          wm.tables[t] != wm.tables[u])
  }

  ghost predicate NewTableOk(wm: Vm, t: TableRef)
    requires t in wm.tables
  {
    && wm.tables[t] in wm.heap && wm.tables[t] !in wm.dirs && UserSlot(t.slot)
    && Ref(t.dir, Huge(t.slot)) !in wm.ptes
  }

  // ---- Counting ------------------------------------------------------------------------------

  ghost function Own(ptes: map<Ref, Pte>, d: nat, f: nat): set<Ref> {
    set r | r in ptes && r.dir == d && ptes[r].frame == f
  }

  lemma OwnSize(ptes: map<Ref, Pte>, d: nat, f: nat)
    requires NoDouble(ptes)
    ensures |Own(ptes, d, f)| == Use(Maps(ptes, d, f))
  {
    if Maps(ptes, d, f) {
      var r :| r in ptes && r.dir == d && ptes[r].frame == f;
      assert Own(ptes, d, f) == {r};
    } else {
      assert Own(ptes, d, f) == {};
    }
  }

  /** The number of entries on a frame moves with the one entry of the directory. */
  lemma MappingsMove(vm: Vm, wm: Vm, d: nat, f: nat)
    requires NoDouble(vm.ptes) && NoDouble(wm.ptes) && OthersStay(vm.ptes, wm.ptes, d)
    ensures Mappings(wm, f) == Mappings(vm, f) + Use(Maps(wm.ptes, d, f)) - Use(Maps(vm.ptes, d, f))
  {
    OwnSize(vm.ptes, d, f);
    OwnSize(wm.ptes, d, f);
    hide NoDouble, Maps, OthersStay;
    HoldersSplit(vm.ptes, d, f);
    HoldersSplit(wm.ptes, d, f);
    assert Others(vm.ptes, d, f) == Others(wm.ptes, d, f) by { SameOthers(vm.ptes, wm.ptes, d, f); }
  }

  ghost function Others(ptes: map<Ref, Pte>, d: nat, f: nat): set<Ref> {
    set r | r in ptes && r.dir != d && ptes[r].frame == f
  }

  lemma SameOthers(ptes: map<Ref, Pte>, ptes': map<Ref, Pte>, d: nat, f: nat)
    requires OthersStay(ptes, ptes', d)
    ensures Others(ptes, d, f) == Others(ptes', d, f)
  {
  }

  lemma HoldersSplit(ptes: map<Ref, Pte>, d: nat, f: nat)
    ensures Count(Held(ptes), f) == |Others(ptes, d, f)| + |Own(ptes, d, f)|
  {
    assert Of(Held(ptes), f) == Others(ptes, d, f) + Own(ptes, d, f);
  }

  lemma MapsMeans(vm: Vm, d: nat, f: nat)
    requires Core(vm) && Maps(vm.ptes, d, f)
    ensures UserFrame(vm, f) && f < SMALL_NUM && Mappings(vm, f) > 0 && vm.frames[f] > 0
  {
    var r :| r in vm.ptes && r.dir == d && vm.ptes[r].frame == f;
    MappedFrameCounted(vm, r);
    assert PteOk(vm, r);
  }

  // ---- From right accounts to the effect -----------------------------------------------------

  /** Where the accounts are right before and after, the table has moved with the mappings. */
  lemma AccountsFollow(vm: Vm, wm: Vm, d: nat)
    requires Core(vm) && Core(wm) && vm.hand == {} && wm.hand == {} && wm.offline == vm.offline
    requires OthersStay(vm.ptes, wm.ptes, d) && HeapAgrees(vm.heap, wm.heap)
    ensures FramesFollow(vm, wm, d)
  {
    hide Core;
    FrameFollows(vm, wm, d, 0);
    forall f: nat | f < SMALL_NUM
      ensures |vm.frames| == |wm.frames| == SMALL_NUM && wm.frames[f] == Followed(vm, wm, d, f)
    {
      FrameFollows(vm, wm, d, f);
    }
  }

  lemma FrameFollows(vm: Vm, wm: Vm, d: nat, f: nat)
    requires Core(vm) && Core(wm) && vm.hand == {} && wm.hand == {} && wm.offline == vm.offline && f < SMALL_NUM
    requires OthersStay(vm.ptes, wm.ptes, d) && HeapAgrees(vm.heap, wm.heap)
    ensures |vm.frames| == |wm.frames| == SMALL_NUM && wm.frames[f] == Followed(vm, wm, d, f)
  {
    assert vm.frames[f] == Expected(vm, f) && wm.frames[f] == Expected(wm, f);
    MappingsMove(vm, wm, d, f);
    if Maps(vm.ptes, d, f) { MapsMeans(vm, d, f); }
    if Maps(wm.ptes, d, f) { MapsMeans(wm, d, f); }
    HeapFramesMove(vm, wm, f);
    if HeapFrame(vm.heap, f) { NobodyMapsHeapFrame(vm, f); }
    hide Accounted, PtesOk, NoDouble, OwnersOk, MemOk, Mappings, Maps;
  }

  lemma HeapFramesMove(vm: Vm, wm: Vm, f: nat)
    requires HeapOk(vm) && HeapOk(wm) && HeapAgrees(vm.heap, wm.heap)
    ensures Gains(vm.heap, wm.heap, f) ==> HeapFrame(wm.heap, f) && f !in wm.offline && f >= LARGE_NUM
    ensures Gains(wm.heap, vm.heap, f) ==> HeapFrame(vm.heap, f) && f !in vm.offline && f >= LARGE_NUM
    ensures HeapFrame(wm.heap, f) <==>
            Gains(vm.heap, wm.heap, f) || (HeapFrame(vm.heap, f) && !Gains(wm.heap, vm.heap, f))
  {
  }

  /** Every frame in use by a mapping stays in use. */
  ghost predicate MappedStays(vm: Vm, wm: Vm) {
    forall f :: Mappings(vm, f) > 0 ==> Mappings(wm, f) > 0
  }

  lemma KeptEntriesStay(vm: Vm, wm: Vm)
    requires forall r :: r in vm.ptes ==> r in wm.ptes && wm.ptes[r].frame == vm.ptes[r].frame
    ensures MappedStays(vm, wm)
  {
    forall f | Mappings(vm, f) > 0 ensures Mappings(wm, f) > 0 {
      var r :| r in Of(Held(vm.ptes), f);
      CountPositive(Held(wm.ptes), r);
    }
  }

  /** What a call takes was available before it. */
  lemma TakenWasAvailable(vm: Vm, wm: Vm, f: nat)
    requires Core(vm) && Core(wm) && vm.hand == {} && wm.hand == {} && wm.offline == vm.offline
    requires MappedStays(vm, wm) && forall h :: h in vm.heap ==> h in wm.heap && wm.heap[h] == vm.heap[h]
    requires f < SMALL_NUM && vm.frames[f] == UNUSED && InUse(wm.frames, f)
    ensures Available(vm.frames, f)
  {
    forall g | 0 <= g < SMALL_NUM && InUse(vm.frames, g) ensures InUse(wm.frames, g) {
      StaysInUse(vm, wm, g);
    }
    assert f / PER_LARGE < SMALL_NUM && vm.frames[f / PER_LARGE] == Expected(vm, f / PER_LARGE);
    assert wm.frames[f / PER_LARGE] == Expected(wm, f / PER_LARGE);
    assert Exclusive(wm.frames) && vm.offline == wm.offline;
    hide Core, MappedStays, Mappings;
  }

  lemma StaysInUse(vm: Vm, wm: Vm, g: nat)
    requires Core(vm) && Core(wm) && wm.offline == vm.offline && vm.hand == {}
    requires MappedStays(vm, wm) && forall h :: h in vm.heap ==> h in wm.heap && wm.heap[h] == vm.heap[h]
    requires g < SMALL_NUM && InUse(vm.frames, g)
    ensures InUse(wm.frames, g)
  {
    assert vm.frames[g] == Expected(vm, g) && wm.frames[g] == Expected(wm, g);
    hide Core, Mappings;
  }

  /** Frames under new heap pages were available. */
  lemma NewPagesTaken(vm: Vm, wm: Vm)
    requires Core(vm) && Core(wm) && vm.hand == {} && wm.hand == {} && wm.offline == vm.offline
    requires MappedStays(vm, wm) && forall h :: h in vm.heap ==> h in wm.heap && wm.heap[h] == vm.heap[h]
    ensures PagesTaken(vm, wm)
  {
    forall h | h in wm.heap && h !in vm.heap
      ensures h < HEAP_PAGES && LARGE_NUM <= wm.heap[h] && Available(vm.frames, wm.heap[h])
    {
      NewPageTaken(vm, wm, h);
    }
    assert HeapOk(wm);
    hide Core, MappedStays;
  }

  lemma NewPageTaken(vm: Vm, wm: Vm, h: nat)
    requires Core(vm) && Core(wm) && vm.hand == {} && wm.hand == {} && wm.offline == vm.offline
    requires MappedStays(vm, wm) && forall k :: k in vm.heap ==> k in wm.heap && wm.heap[k] == vm.heap[k]
    requires h in wm.heap && h !in vm.heap
    ensures h < HEAP_PAGES && LARGE_NUM <= wm.heap[h] && Available(vm.frames, wm.heap[h])
  {
    var f := wm.heap[h];
    assert HeapFrame(wm.heap, f) && f < SMALL_NUM;
    NobodyMapsHeapFrame(wm, f);
    assert vm.frames[f] == Expected(vm, f) && wm.frames[f] == Expected(wm, f);
    assert !HeapFrame(vm.heap, f);
    assert vm.frames[f] == UNUSED by { hide Core, Good; }
    hide Core, MappedStays, HeapFrame;
    TakenWasAvailable(vm, wm, f);
  }

  lemma NewTablesPlaced(vm: Vm, wm: Vm)
    requires Core(wm)
    ensures TablesPlaced(vm, wm)
  {
  }

  // ---- From the effect to right accounts -----------------------------------------------------

  /** All frames taken are of one size, and each was available. */
  ghost predicate TakenOk(vm: Vm, wm: Vm, large: bool)
    requires |vm.frames| == |wm.frames| == SMALL_NUM
  {
    forall f :: 0 <= f < SMALL_NUM && vm.frames[f] == UNUSED && wm.frames[f] != UNUSED ==>
      Available(vm.frames, f) && (f < LARGE_NUM <==> large)
  }

  lemma FollowedExclusive(vm: Vm, wm: Vm, large: bool)
    requires |vm.frames| == |wm.frames| == SMALL_NUM && Exclusive(vm.frames) && TakenOk(vm, wm, large)
    requires forall f :: 0 <= f < SMALL_NUM && vm.frames[f] == UNAVAILABLE ==> wm.frames[f] == UNAVAILABLE
    ensures Exclusive(wm.frames)
  {
    forall s | LARGE_NUM <= s < SMALL_NUM && InUse(wm.frames, s) ensures wm.frames[s / PER_LARGE] == UNUSED {
      var l := s / PER_LARGE;
      if InUse(vm.frames, s) {
        assert vm.frames[l] == UNUSED;
      } else {
        assert Available(vm.frames, s);
      }
    }
  }

  /** The effect keeps the accounts. */
  lemma FollowedAccounts(vm: Vm, wm: Vm, d: nat, large: bool)
    requires Core(vm) && vm.hand == {} && wm.hand == {} && wm.offline == vm.offline
    requires OthersStay(vm.ptes, wm.ptes, d) && HeapAgrees(vm.heap, wm.heap) && FramesFollow(vm, wm, d)
    requires HeapOk(wm) && PtesOk(wm) && NoDouble(wm.ptes)
    requires |vm.frames| == |wm.frames| == SMALL_NUM && TakenOk(vm, wm, large)
    ensures Accounted(wm)
  {
    hide Core, TakenOk, OthersStay, HeapAgrees, FramesFollow, HeapOk, PtesOk, NoDouble, Expected;
    forall f: nat | f < SMALL_NUM
      ensures |vm.frames| == |wm.frames| == SMALL_NUM && wm.frames[f] == Expected(wm, f)
      ensures vm.frames[f] == UNAVAILABLE ==> wm.frames[f] == UNAVAILABLE
    {
      FrameAccounted(vm, wm, d, f);
    }
    FrameAccounted(vm, wm, d, 0);
    GoodBefore(vm);
    FollowedExclusive(vm, wm, large);
  }

  lemma GoodBefore(vm: Vm)
    requires Core(vm)
    ensures Good(vm.frames)
  {
  }

  lemma FrameAccounted(vm: Vm, wm: Vm, d: nat, f: nat)
    requires Core(vm) && vm.hand == {} && wm.hand == {} && wm.offline == vm.offline && f < SMALL_NUM
    requires OthersStay(vm.ptes, wm.ptes, d) && HeapAgrees(vm.heap, wm.heap) && FramesFollow(vm, wm, d)
    requires HeapOk(wm) && PtesOk(wm) && NoDouble(wm.ptes)
    ensures |vm.frames| == |wm.frames| == SMALL_NUM && wm.frames[f] == Expected(wm, f)
    ensures vm.frames[f] == UNAVAILABLE ==> wm.frames[f] == UNAVAILABLE
    ensures f == 0 ==> wm.frames[f] == KERNEL
  {
    assert vm.frames[f] == Expected(vm, f) && wm.frames[f] == Followed(vm, wm, d, f);
    MappingsMove(vm, wm, d, f);
    if Maps(vm.ptes, d, f) { MapsMeans(vm, d, f); }
    if Maps(wm.ptes, d, f) { PlacedFrame(wm, d, f); }
    HeapFramesMove(vm, wm, f);
    if HeapFrame(vm.heap, f) { NobodyMapsHeapFrame(vm, f); }
    hide Core, Maps, Mappings, FramesFollow;
  }

  lemma PlacedFrame(wm: Vm, d: nat, f: nat)
    requires PtesOk(wm) && Maps(wm.ptes, d, f)
    ensures UserFrame(wm, f)
  {
    var r :| r in wm.ptes && r.dir == d && wm.ptes[r].frame == f;
    assert PteOk(wm, r);
  }

  lemma HeapGrows(vm: Vm, wm: Vm)
    requires Core(vm) && wm.offline == vm.offline && PagesTaken(vm, wm)
    ensures HeapOk(wm)
  {
    forall h | h in wm.heap && h !in vm.heap ensures wm.heap[h] !in wm.offline && !HeapFrame(vm.heap, wm.heap[h]) {
      UnusedIsFree(vm, wm.heap[h]);
    }
    assert HeapOk(vm);
    hide Core, Available;
    assert forall h :: h in wm.heap && h !in vm.heap ==> wm.heap[h] < SMALL_NUM;
  }

  lemma UnusedIsFree(vm: Vm, f: nat)
    requires Core(vm) && f < SMALL_NUM && vm.frames[f] == UNUSED
    ensures f !in vm.offline && !HeapFrame(vm.heap, f) && f >= NUM_PREALLOCATED && Mappings(vm, f) == 0
  {
    assert vm.frames[f] == Expected(vm, f);
  }

  lemma OwnersGrow(vm: Vm, wm: Vm, d: nat)
    requires OwnersOk(vm) && HeapGrown(vm, wm, d) && TablesPlaced(vm, wm) && d in wm.dirs
    requires wm.dirs == vm.dirs || (wm.dirs == vm.dirs + {d} && d !in vm.heap && d in wm.heap)
    ensures OwnersOk(wm)
  {
  }

  lemma CoreFollows(vm: Vm, wm: Vm, d: nat, large: bool)
    requires Core(vm) && vm.hand == {} && wm.hand == {} && wm.offline == vm.offline
    requires OthersStay(vm.ptes, wm.ptes, d) && HeapAgrees(vm.heap, wm.heap) && FramesFollow(vm, wm, d)
    requires HeapOk(wm) && OwnersOk(wm) && PtesOk(wm) && NoDouble(wm.ptes) && MemOk(wm)
    requires |vm.frames| == |wm.frames| == SMALL_NUM && TakenOk(vm, wm, large)
    ensures Core(wm)
  {
    FollowedAccounts(vm, wm, d, large);
    hide Accounted, HeapOk, OwnersOk, PtesOk, NoDouble, MemOk;
  }

  /** A frame is taken for a new heap page or for a mapping of the directory. */
  lemma TakenFor(vm: Vm, wm: Vm, d: nat, f: nat)
    requires FramesFollow(vm, wm, d) && f < SMALL_NUM && vm.frames[f] == UNUSED && wm.frames[f] != UNUSED
    ensures Gains(vm.heap, wm.heap, f) || (Maps(wm.ptes, d, f) && !Maps(vm.ptes, d, f)) || Maps(vm.ptes, d, f)
  {
    assert wm.frames[f] == Followed(vm, wm, d, f);
    hide Maps, Gains;
  }

  /** A call that points the directory at no unused frame takes frames for heap pages only. */
  lemma OnlyPagesTaken(vm: Vm, wm: Vm, d: nat)
    requires Core(vm) && PagesTaken(vm, wm) && FramesFollow(vm, wm, d)
    requires forall r :: r in wm.ptes && r.dir == d && wm.ptes[r].frame < SMALL_NUM ==>
               vm.frames[wm.ptes[r].frame] != UNUSED
    ensures TakenOk(vm, wm, false)
  {
    assert |vm.frames| == |wm.frames| == SMALL_NUM;
    hide Core, FramesFollow, Available;
    forall f | 0 <= f < SMALL_NUM && vm.frames[f] == UNUSED && wm.frames[f] != UNUSED
      ensures Available(vm.frames, f) && f >= LARGE_NUM
    {
      TakenFor(vm, wm, d, f);
      UnusedUnmapped(vm, d, f);
    }
  }

  lemma UnusedUnmapped(vm: Vm, d: nat, f: nat)
    requires Core(vm) && f < SMALL_NUM && vm.frames[f] == UNUSED
    ensures !Maps(vm.ptes, d, f)
  {
    if Maps(vm.ptes, d, f) { MapsMeans(vm, d, f); }
  }
}
