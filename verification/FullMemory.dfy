/** A machine in which resolving a copy-on-write fault goes wrong (src/mm/paging.c): 16 MiB of memory,
    all of it taken, and one page shared by a parent and its child. */
module FullMemory {
  import opened FrameTable
  import opened Holders
  import opened AddressSpaces
  import opened CopyOnWrite
  import opened Paging

  const PARENT: nat := 0
  const CHILD: nat := 1
  const SLOT: nat := 4
  const FIRST: nat := 3 * PER_LARGE        // the first frame behind the kernel's 12 MiB
  const SHARED: nat := FIRST + PER_LARGE - 1

  const PAGE: Page := Small(SLOT, 0)

  /** The heap has every frame up to the last one, which both directories map. */
  ghost function Full(): Vm {
    Vm(seq(SMALL_NUM, f requires 0 <= f < SMALL_NUM => EntryOf(f)),
       (set f: nat | f < SMALL_NUM && EntryOf(f) == UNAVAILABLE),
       HeapRun(0, PER_LARGE - 1, FIRST),
       {PARENT, CHILD},
       map[TableRef(PARENT, SLOT) := 2, TableRef(CHILD, SLOT) := 3],
       map[Ref(PARENT, PAGE) := Pte(SHARED, false, true), Ref(CHILD, PAGE) := Pte(SHARED, false, true)],
       {},
       seq(SMALL_NUM, _ => Zeros()))
  }

  function EntryOf(f: nat): int {
    if f < NUM_PREALLOCATED || FIRST <= f < SHARED then KERNEL
    else if f == SHARED then 2
    else if f == NUM_PREALLOCATED then UNUSED
    else UNAVAILABLE
  }

  lemma FullMappings(f: nat)
    ensures Mappings(Full(), f) == if f == SHARED then 2 else 0
  {
    var held := Held(Full().ptes);
    assert held == map[Ref(PARENT, PAGE) := SHARED, Ref(CHILD, PAGE) := SHARED];
    if f == SHARED {
      assert Of(held, f) == {Ref(PARENT, PAGE), Ref(CHILD, PAGE)};
    } else {
      CountZero(held, f);
    }
  }

  lemma FullHeap(f: nat)
    ensures HeapFrame(Full().heap, f) <==> FIRST <= f < SHARED
  {
    if FIRST <= f < SHARED {
      assert f - FIRST in Full().heap && Full().heap[f - FIRST] == f;
    }
  }

  lemma FullAccounted()
    ensures Accounted(Full())
  {
    forall f: nat | f < SMALL_NUM ensures EntryOf(f) == Expected(Full(), f) {
      FullMappings(f);
      FullHeap(f);
    }
    hide Expected;
  }

  lemma FullOwners()
    ensures HeapOk(Full()) && OwnersOk(Full())
  {
    hide EntryOf, HeapRun, Zeros;
    forall h | h in Full().heap ensures Full().heap[h] !in Full().offline { OfHeap(h); }
  }

  lemma OfHeap(h: nat)
    requires h < PER_LARGE - 1
    ensures EntryOf(FIRST + h) == KERNEL
  {
  }

  lemma FullPlaced()
    ensures NoDouble(Full().ptes) && MemOk(Full()) && PtesOk(Full())
  {
    FullHeap(SHARED);
    assert EntryOf(SHARED) == 2;
    hide EntryOf, HeapRun, HeapFrame;
  }

  lemma FullPrivate()
    ensures Full().hand == {} && Private(Full(), {})
  {
    hide EntryOf, HeapRun, Mappings, Zeros;
  }

  lemma FullInv()
    ensures Inv(Full())
  {
    FullAccounted();
    FullOwners();
    FullPlaced();
    FullPrivate();
    hide Full, Accounted, HeapOk, OwnersOk, PtesOk, NoDouble, MemOk, Private;
  }

  lemma NothingFree()
    ensures WellSized(Full().frames) && Chosen(Full().frames, false) == 0
  {
    assert WellSized(Full().frames);
    ChosenIsFirstFit(Full().frames, false);
    hide Chosen, HeapRun;
  }

  lemma Faults()
    ensures CowFault(Full(), PARENT, SLOT * ENTRIES) && SharedFrame(Full(), Ref(PARENT, PAGE))
    ensures |Full().frames| == SMALL_NUM
  {
    FullMappings(SHARED);
    hide Mappings, EntryOf, HeapRun;
    assert RefAt(Full().ptes, PARENT, SLOT * ENTRIES) == Ref(PARENT, PAGE);
  }

  /** A write by the parent faults, no frame is left for its copy, and the fault handler leaves an
      entry that allows writing to the page the child still maps. */
  lemma NoFrameForCopy()
    ensures Inv(Full()) && CowFault(Full(), PARENT, SLOT * ENTRIES)
    ensures !CopyPossible(Full(), Ref(PARENT, PAGE))
    ensures Ref(PARENT, PAGE) in Full().ptes
    ensures LeftOpen(Full(), Open(Full(), Ref(PARENT, PAGE)), Ref(PARENT, PAGE))
    ensures !Inv(Open(Full(), Ref(PARENT, PAGE)))
  {
    FullInv();
    NothingFree();
    Faults();
    hide Full, Core, Mappings, Chosen, Private, CowFault;
    NotShared(Full(), Ref(PARENT, PAGE));
  }
}
