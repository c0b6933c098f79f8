/** How many frames and kernel pages there are to be had. */
module Supply {
  import opened FrameTable
  import opened AddressSpaces

  /** The frames that alloc_phys_mem would hand out one after the other. */
  ghost function FreeFrames(vm: Vm, large: bool): set<nat> {
    set f | 0 <= f < SMALL_NUM && |vm.frames| == SMALL_NUM && Acceptable(vm.frames, f, large)
  }

  ghost function Spare(vm: Vm, large: bool): nat {
    |FreeFrames(vm, large)|
  }

  /** The last page of a directory entry, which alloc_pages never asks for. */
  predicate LastOfSlot(page: nat) {
    page % ENTRIES == ENTRIES - 1
  }

  /** The heap pages that alloc_pages would ask for. */
  ghost function FreePages(vm: Vm): set<nat> {
    set h | 0 <= h < HEAP_PAGES && h !in vm.heap && !LastOfSlot(h)
  }

  /** So many times alloc_pages gives a page of the kernel heap. */
  ghost function KernelSupply(vm: Vm): nat {
    if Spare(vm, false) < |FreePages(vm)| then Spare(vm, false) else |FreePages(vm)|
  }

  lemma NoneSpare(vm: Vm, large: bool)
    requires WellSized(vm.frames)
    ensures Chosen(vm.frames, large) == 0 <==> Spare(vm, large) == 0
  {
    ChosenIsFirstFit(vm.frames, large);
    hide Chosen, Acceptable;
    if Chosen(vm.frames, large) == 0 {
      assert FreeFrames(vm, large) == {};
    } else {
      assert Chosen(vm.frames, large) in FreeFrames(vm, large);
    }
  }

  /** A frame that is taken is one less of its size, and no other frame of that size is lost. */
  lemma FrameSpent(vm: Vm, wm: Vm, f: nat, large: bool, mark: int)
    requires WellSized(vm.frames) && Acceptable(vm.frames, f, large) && mark != UNUSED
    requires wm.frames == vm.frames[f := mark]
    ensures Spare(wm, large) + 1 == Spare(vm, large)
  {
    assert f in FreeFrames(vm, large);
    forall g: nat | g < SMALL_NUM
      ensures Acceptable(wm.frames, g, large) <==> Acceptable(vm.frames, g, large) && g != f
    {
      OthersAcceptable(vm.frames, f, large, mark, g);
    }
    hide Acceptable;
    assert FreeFrames(wm, large) == FreeFrames(vm, large) - {f};
  }

  lemma OthersAcceptable(p: Table, f: nat, large: bool, mark: int, g: nat)
    requires WellSized(p) && Acceptable(p, f, large) && mark != UNUSED
    ensures Acceptable(p[f := mark], g, large) <==> Acceptable(p, g, large) && g != f
  {
    if large && g < LARGE_SCAN_LIMIT && g != f {
      assert 0 < f < LARGE_NUM;
      assert p[g] == p[f := mark][g];
      if g > 0 {
        assert forall i :: g * PER_LARGE <= i < (g + 1) * PER_LARGE ==> p[f := mark][i] == p[i];
      }
    }
  }

  /** A page of the kernel heap on such a frame is one less as well. */
  lemma KernelPageSpent(vm: Vm, wm: Vm, h: nat, f: nat)
    requires WellSized(vm.frames) && Acceptable(vm.frames, f, false) && h in FreePages(vm)
    requires wm.frames == vm.frames[f := KERNEL] && wm.heap == vm.heap[h := f]
    ensures Spare(wm, false) + 1 == Spare(vm, false) && KernelSupply(wm) + 1 == KernelSupply(vm)
  {
    FrameSpent(vm, wm, f, false, KERNEL);
    assert FreePages(wm) == FreePages(vm) - {h};
    hide Spare;
  }

  lemma SupplyMeans(vm: Vm)
    ensures KernelSupply(vm) > 0 <==> FreePages(vm) != {} && Spare(vm, false) > 0
  {
    hide Spare, FreePages;
    assert |FreePages(vm)| == 0 <==> FreePages(vm) == {};
  }

  /** Counting a frame in use up or down takes nothing. */
  lemma SameSupply(vm: Vm, wm: Vm)
    requires |vm.frames| == |wm.frames| && wm.heap == vm.heap
    requires forall f :: 0 <= f < |vm.frames| ==> (vm.frames[f] == UNUSED <==> wm.frames[f] == UNUSED)
    ensures KernelSupply(wm) == KernelSupply(vm) && Spare(wm, false) == Spare(vm, false)
  {
    assert FreeFrames(wm, false) == FreeFrames(vm, false);
    assert FreePages(wm) == FreePages(vm);
  }

  // ---- What request_pages needs --------------------------------------------------------------

  /** Directory entry `slot` is present. */
  ghost predicate SlotTaken(vm: Vm, d: nat, slot: nat) {
    !UserSlot(slot) || TableRef(d, slot) in vm.tables || Ref(d, Huge(slot)) in vm.ptes
  }

  /** The slot holds a 4 MiB page, at which the search for a page table panics. */
  ghost predicate SlotHalts(vm: Vm, d: nat, slot: nat) {
    UserSlot(slot) && Ref(d, Huge(slot)) in vm.ptes
  }

  /** The slot is free, and a page table for it can be had. */
  ghost predicate GetsTable(vm: Vm, d: nat, slot: nat) {
    !SlotTaken(vm, d, slot) && KernelSupply(vm) > 0
  }

  /** What a run of 4 MiB pages needs: free slots and so many frames. */
  ghost predicate HugeRunGives(vm: Vm, d: nat, slot: nat, num: nat) {
    (forall s: nat :: slot <= s < slot + num ==> !SlotTaken(vm, d, s)) && num <= Spare(vm, true)
  }

  /** What a run of 4 KiB pages in one page table needs beside `used` frames: no page in the way, a
      frame for every page, and another one and a kernel page where the table is missing. */
  ghost predicate RunGives(vm: Vm, d: nat, slot: nat, index: nat, num: nat, used: nat) {
    && UserSlot(slot) && Ref(d, Huge(slot)) !in vm.ptes
    && (forall j :: index <= j < index + num ==> Ref(d, Small(slot, j)) !in vm.ptes)
    && if TableRef(d, slot) in vm.tables then used + num <= Spare(vm, false)
       else FreePages(vm) != {} && used + num + 1 <= Spare(vm, false)
  }

  // ---- The search of alloc_pages for one user page -------------------------------------------

  /** The slot has a page to give.  The last page of a slot is never asked for. */
  ghost predicate SlotGives(vm: Vm, d: nat, slot: nat, used: nat) {
    exists j: nat :: j < ENTRIES && !LastOfSlot(j) && RunGives(vm, d, slot, j, 1, used)
  }

  /** Entry j is the first of the slot that gives a page. */
  ghost predicate FirstEntry(vm: Vm, d: nat, slot: nat, j: nat) {
    && j < ENTRIES && !LastOfSlot(j) && RunGives(vm, d, slot, j, 1, 0)
    && forall i: nat :: i < j && !LastOfSlot(i) ==> !RunGives(vm, d, slot, i, 1, 0)
  }

  /** The slot takes the last frame for its page table and has none left for a page. */
  ghost predicate SlotEats(vm: Vm, d: nat, slot: nat, used: nat) {
    !SlotTaken(vm, d, slot) && FreePages(vm) != {} && Spare(vm, false) == used + 1
  }

  ghost predicate FirstGiving(vm: Vm, d: nat, slot: nat, used: nat) {
    && NUM_PREALLOCATED <= slot < ENTRIES && SlotGives(vm, d, slot, used)
    && forall s: nat :: NUM_PREALLOCATED <= s < slot ==> !SlotEats(vm, d, s, used) && !SlotHalts(vm, d, s)
  }

  /** alloc_pages finds a user page, beside `used` frames of that size taken before. */
  ghost predicate PageToBeHad(vm: Vm, d: nat, large: bool, used: nat) {
    if large then used < Spare(vm, true) && exists s: nat :: s < ENTRIES && !SlotTaken(vm, d, s)
    else exists s: nat :: FirstGiving(vm, d, s, used)
  }

  /** Where it finds the page. */
  ghost predicate FoundAt(vm: Vm, d: nat, page: Page) {
    match page
    case Huge(slot) =>
      && slot < ENTRIES && !SlotTaken(vm, d, slot)
      && forall s: nat :: s < slot ==> SlotTaken(vm, d, s)
    case Small(slot, index) =>
      && FirstGiving(vm, d, slot, 0) && FirstEntry(vm, d, slot, index)
      && forall s: nat :: NUM_PREALLOCATED <= s < slot ==> !SlotGives(vm, d, s, 0)
  }

  ghost predicate MeetsHuge(vm: Vm, d: nat) {
    exists s: nat :: NUM_PREALLOCATED <= s < ENTRIES && SlotHalts(vm, d, s)
  }

  /** State of the search before entry j of a slot: nothing is changed, or the last frame is gone. */
  ghost predicate SlotSearched(vm: Vm, wm: Vm, d: nat, slot: nat, j: nat) {
    if wm == vm then
      && (j > 0 ==> !SlotEats(vm, d, slot, 0) && !SlotHalts(vm, d, slot))
      && forall i: nat :: i < j && !LastOfSlot(i) ==> !RunGives(vm, d, slot, i, 1, 0)
    else
      SlotEats(vm, d, slot, 0) && wm.ptes == vm.ptes && Spare(wm, false) == 0
  }

  /** After one entry was asked for. */
  lemma EntrySearched(vm: Vm, mid: Vm, wm: Vm, d: nat, slot: nat, j: nat, granted: bool, halted: bool)
    requires SlotSearched(vm, mid, d, slot, j) && j < ENTRIES && !LastOfSlot(j)
    requires TableRef(d, slot) !in mid.tables ==> forall i :: Ref(d, Small(slot, i)) !in mid.ptes
    requires granted <==> RunGives(mid, d, slot, j, 1, 0)
    requires halted <==> SlotHalts(mid, d, slot)
    requires !granted && !halted ==>
      if GetsTable(mid, d, slot) then wm.ptes == mid.ptes && Spare(wm, false) + 1 == Spare(mid, false) else wm == mid
    ensures granted ==> SlotGives(vm, d, slot, 0) && !SlotHalts(vm, d, slot) && FirstEntry(vm, d, slot, j)
    ensures halted ==> SlotHalts(vm, d, slot) && !SlotGives(vm, d, slot, 0)
    ensures !granted && !halted ==> SlotSearched(vm, wm, d, slot, j + 1)
  {
    hide Spare, FreePages;
  }

  /** What the search of a slot comes to. */
  lemma SlotSearchedAll(vm: Vm, wm: Vm, d: nat, slot: nat)
    requires SlotSearched(vm, wm, d, slot, ENTRIES)
    ensures !SlotGives(vm, d, slot, 0) && !SlotHalts(vm, d, slot)
    ensures if SlotEats(vm, d, slot, 0) then wm.ptes == vm.ptes && Spare(wm, false) == 0 else wm == vm
  {
    hide Spare, FreePages;
  }

  /** State of the search before a slot. */
  ghost predicate Searched(vm: Vm, wm: Vm, d: nat, end: nat) {
    && (forall s: nat :: NUM_PREALLOCATED <= s < end ==> !SlotHalts(vm, d, s))
    && if wm == vm then
         forall s: nat :: NUM_PREALLOCATED <= s < end ==> !SlotGives(vm, d, s, 0) && !SlotEats(vm, d, s, 0)
       else
         wm.ptes == vm.ptes && Spare(wm, false) == 0 && !PageToBeHad(vm, d, false, 0)
  }

  /** After one slot was searched. */
  lemma SlotTried(vm: Vm, mid: Vm, wm: Vm, d: nat, slot: nat, granted: bool, halted: bool)
    requires Searched(vm, mid, d, slot) && NUM_PREALLOCATED <= slot < ENTRIES
    requires granted <==> SlotGives(mid, d, slot, 0)
    requires halted <==> SlotHalts(mid, d, slot)
    requires !granted && !halted ==>
      if SlotEats(mid, d, slot, 0) then wm.ptes == mid.ptes && Spare(wm, false) == 0 else wm == mid
    ensures granted ==> PageToBeHad(vm, d, false, 0) && mid == vm && FirstGiving(vm, d, slot, 0)
    ensures granted ==> forall s: nat :: NUM_PREALLOCATED <= s < slot ==> !SlotGives(vm, d, s, 0)
    ensures halted ==> MeetsHuge(vm, d) && !PageToBeHad(vm, d, false, 0)
    ensures !granted && !halted ==> Searched(vm, wm, d, slot + 1)
  {
    hide Spare, FreePages, SlotTaken;
    if granted {
      assert mid == vm && FirstGiving(vm, d, slot, 0);
    } else if halted {
      assert SlotHalts(vm, d, slot) && !SlotGives(vm, d, slot, 0);
    }
  }

  lemma AllSearched(vm: Vm, wm: Vm, d: nat)
    requires Searched(vm, wm, d, ENTRIES)
    ensures !PageToBeHad(vm, d, false, 0) && !MeetsHuge(vm, d)
  {
    hide Spare, FreePages, SlotTaken, SlotGives, SlotEats;
  }

  /** A frame taken before the search counts as used. */
  lemma HadBesideOne(vm: Vm, wm: Vm, d: nat, large: bool)
    requires wm.tables == vm.tables && wm.heap == vm.heap && forall r :: r in wm.ptes <==> r in vm.ptes
    requires Spare(wm, large) + 1 == Spare(vm, large)
    ensures PageToBeHad(wm, d, large, 0) <==> PageToBeHad(vm, d, large, 1)
  {
    hide Spare;
    if large {
      assert forall s: nat :: SlotTaken(wm, d, s) <==> SlotTaken(vm, d, s);
    } else {
      assert forall s: nat, j: nat :: RunGives(wm, d, s, j, 1, 0) <==> RunGives(vm, d, s, j, 1, 1);
      hide RunGives;
      assert forall s: nat :: SlotGives(wm, d, s, 0) <==> SlotGives(vm, d, s, 1);
      assert forall s: nat :: SlotEats(wm, d, s, 0) <==> SlotEats(vm, d, s, 1);
      assert forall s: nat :: SlotHalts(wm, d, s) <==> SlotHalts(vm, d, s);
      hide SlotGives, SlotEats, SlotHalts;
      assert forall s: nat :: FirstGiving(wm, d, s, 0) <==> FirstGiving(vm, d, s, 1);
    }
  }

  // ---- What clone_directory needs ------------------------------------------------------------

  ghost predicate SlotUsed(vm: Vm, d: nat, slot: nat) {
    exists j: nat :: j < ENTRIES && Ref(d, Small(slot, j)) in vm.ptes
  }

  /** The page tables of slots below `end` that hold a page. */
  ghost function TablesUsed(vm: Vm, d: nat, end: nat): nat {
    if end == 0 then 0 else TablesUsed(vm, d, end - 1) + if SlotUsed(vm, d, end - 1) then 1 else 0
  }

  lemma {:induction false} TablesUsedGrows(vm: Vm, d: nat, end: nat, more: nat)
    requires end <= more
    ensures TablesUsed(vm, d, end) <= TablesUsed(vm, d, more)
  {
    if end < more { TablesUsedGrows(vm, d, end, more - 1); }
  }

  /** The clone takes a page for itself and one for every table that is used. */
  ghost function PagesForClone(vm: Vm, src: nat): nat {
    1 + TablesUsed(vm, src, ENTRIES)
  }

  /** What the walk has taken before entry j of slot i. */
  ghost predicate Spent(vm: Vm, wm: Vm, src: nat, dst: nat, i: nat, j: nat) {
    && KernelSupply(vm) == KernelSupply(wm) + 1 + TablesUsed(vm, src, i)
                           + (if TableRef(dst, i) in wm.tables then 1 else 0)
    && (forall s: nat :: s > i ==> TableRef(dst, s) !in wm.tables)
    && (TableRef(dst, i) in wm.tables <==> exists k: nat :: k < j && Ref(src, Small(i, k)) in vm.ptes)
  }

  lemma NextSlotSpent(vm: Vm, wm: Vm, src: nat, dst: nat, i: nat)
    requires Spent(vm, wm, src, dst, i, ENTRIES)
    ensures Spent(vm, wm, src, dst, i + 1, 0)
  {
    hide KernelSupply;
    assert SlotUsed(vm, src, i) <==> TableRef(dst, i) in wm.tables;
  }

  lemma SkippedSlotSpent(vm: Vm, wm: Vm, src: nat, dst: nat, i: nat)
    requires Spent(vm, wm, src, dst, i, 0) && forall k :: Ref(src, Small(i, k)) !in vm.ptes
    ensures Spent(vm, wm, src, dst, i, ENTRIES)
  {
    hide KernelSupply, TablesUsed;
  }

  /** No page is left for a table that is used. */
  lemma ShortOfPages(vm: Vm, wm: Vm, src: nat, dst: nat, i: nat, j: nat)
    requires Spent(vm, wm, src, dst, i, j) && TableRef(dst, i) !in wm.tables && KernelSupply(wm) == 0
    requires j < ENTRIES && i < ENTRIES && Ref(src, Small(i, j)) in vm.ptes
    ensures KernelSupply(vm) < PagesForClone(vm, src)
  {
    hide KernelSupply;
    assert SlotUsed(vm, src, i);
    TablesUsedGrows(vm, src, i + 1, ENTRIES);
  }

  lemma EnoughPages(vm: Vm, wm: Vm, src: nat, dst: nat)
    requires Spent(vm, wm, src, dst, ENTRIES, 0)
    ensures KernelSupply(vm) >= PagesForClone(vm, src)
  {
    hide KernelSupply, TablesUsed;
  }
}
