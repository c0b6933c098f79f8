/** Page tables of all address spaces, as values, with the invariant that ties them to the table
    of physical frames (src/mm/paging.c).

    A present user entry is a key of `ptes`: the directory it hangs under and the page it maps.
    Directories and page tables live in pages of the kernel heap and are named by the number of
    that page; `heap` maps heap pages to frames. */
module AddressSpaces {
  import opened FrameTable
  import opened Holders

  const ENTRIES: nat := 1024
  const KERNEL_SLOT: nat := 768          // KDIR_VIRT_PDIR_IDX: kernel directory, then kernel heap
  const HEAP_PAGES: nat := 0x3_FC00      // NUM_KHEAP_PAGES
  const PAGE_BYTES: nat := 4096
  const INIT_DIRECTORY: nat := 0x3_FC00  // the static directory of the kernel: not a heap page
  const MAX_SPACES: nat := 0x7FFF

  type Bytes = seq<int>

  /** A user page of 4 MiB or of 4 KiB, by its place in the directory. */
  datatype Page = Huge(slot: nat) | Small(slot: nat, index: nat)
  datatype Ref = Ref(dir: nat, page: Page)
  datatype Pte = Pte(frame: nat, rw: bool, cow: bool)
  datatype TableRef = TableRef(dir: nat, slot: nat)

  /** `hand` holds frames that were allocated for user memory and are not mapped yet. */
  datatype Vm = Vm(
    frames: Table,
    offline: set<nat>,
    heap: map<nat, nat>,
    dirs: set<nat>,
    tables: map<TableRef, nat>,
    ptes: map<Ref, Pte>,
    hand: set<nat>,
    mem: seq<Bytes>)

  predicate UserSlot(slot: nat) {
    2 <= slot < KERNEL_SLOT
  }

  /** User space goes from 8 MiB up to the kernel's directory at 3 GiB. */
  lemma UserSpace(address: nat)
    ensures UserSlot(address / LARGE_SIZE) <==> 0x80_0000 <= address < 0xC000_0000
  {
  }

  /** The kernel heap goes from there, one entry further, up to 4 GiB; the kernel's own directory is not a
      page of it. */
  lemma KernelHeapSpace()
    ensures 0xC040_0000 + HEAP_PAGES * 4096 == 0x1_0000_0000 && KERNEL_SLOT * LARGE_SIZE == 0xC000_0000
    ensures INIT_DIRECTORY >= HEAP_PAGES
  {
  }

  ghost function Held(ptes: map<Ref, Pte>): map<Ref, nat> {
    map r | r in ptes :: ptes[r].frame
  }

  ghost function Mappings(vm: Vm, f: nat): nat {
    Count(Held(vm.ptes), f)
  }

  ghost predicate HeapFrame(heap: map<nat, nat>, f: nat) {
    exists h :: h in heap && heap[h] == f
  }

  /** The number the frame table must hold for frame f, given all mappings. */
  ghost function Expected(vm: Vm, f: nat): int {
    if f in vm.offline then UNAVAILABLE
    else if f < NUM_PREALLOCATED || HeapFrame(vm.heap, f) then KERNEL
    else Mappings(vm, f) + if f in vm.hand then 1 else 0
  }

  ghost predicate Accounted(vm: Vm) {
    && Good(vm.frames)
    && forall f :: 0 <= f < SMALL_NUM ==> vm.frames[f] == Expected(vm, f)
  }

  ghost predicate UserFrame(vm: Vm, f: nat) {
    NUM_PREALLOCATED <= f < SMALL_NUM && f !in vm.offline && !HeapFrame(vm.heap, f)
  }

  ghost predicate HeapOk(vm: Vm) {
    && (forall h :: h in vm.heap ==> h < HEAP_PAGES && LARGE_NUM <= vm.heap[h] < SMALL_NUM && vm.heap[h] !in vm.offline)
    && (forall h, k :: h in vm.heap && k in vm.heap && vm.heap[h] == vm.heap[k] ==> h == k)
  }

  /** Directories and page tables own pairwise different heap pages. */
  ghost predicate OwnersOk(vm: Vm) {
    && (forall d :: d in vm.dirs ==> d in vm.heap)
    && (forall t :: t in vm.tables ==>
          vm.tables[t] in vm.heap && vm.tables[t] !in vm.dirs && t.dir in vm.dirs && UserSlot(t.slot))
    && (forall t, u :: t in vm.tables && u in vm.tables && vm.tables[t] == vm.tables[u] ==> t == u)
  }

  ghost predicate PteOk(vm: Vm, r: Ref)
    requires r in vm.ptes
  {
    && r.dir in vm.dirs
    && UserSlot(r.page.slot)
    && UserFrame(vm, vm.ptes[r].frame)
    && (r.page.Huge? ==> vm.ptes[r].frame < LARGE_NUM && TableRef(r.dir, r.page.slot) !in vm.tables)
    && (r.page.Small? ==>
          vm.ptes[r].frame >= LARGE_NUM && r.page.index < ENTRIES && TableRef(r.dir, r.page.slot) in vm.tables)
  }

  ghost predicate PtesOk(vm: Vm) {
    forall r :: r in vm.ptes ==> PteOk(vm, r)
  }

  /** No directory maps a frame at two places. */
  ghost predicate NoDouble(ptes: map<Ref, Pte>) {
    forall r, q :: r in ptes && q in ptes && r.dir == q.dir && ptes[r].frame == ptes[q].frame ==> r == q
  }

  ghost predicate MemOk(vm: Vm) {
    && |vm.mem| == SMALL_NUM
    && forall p :: 0 <= p < SMALL_NUM ==> |vm.mem[p]| == PAGE_BYTES
  }

  ghost predicate Core(vm: Vm) {
    && Accounted(vm) && HeapOk(vm) && OwnersOk(vm) && PtesOk(vm) && NoDouble(vm.ptes) && MemOk(vm)
    && forall f :: f in vm.hand ==> UserFrame(vm, f)
  }

  /** A page that may be written without a fault is nobody else's. */
  ghost predicate WritableIsPrivate(vm: Vm, r: Ref)
    requires r in vm.ptes
  {
    vm.ptes[r].rw ==> !vm.ptes[r].cow && Mappings(vm, vm.ptes[r].frame) == 1
  }

  ghost predicate Private(vm: Vm, except: set<Ref>) {
    forall r :: r in vm.ptes && r !in except ==> WritableIsPrivate(vm, r)
  }

  /** Between two calls: the core invariant, no frame in hand, writable pages private. */
  ghost predicate Inv(vm: Vm) {
    Core(vm) && vm.hand == {} && Private(vm, {})
  }

  /** The table of frames is determined by the mappings: nothing can leak. */
  lemma FramesDetermined(vm: Vm, wm: Vm)
    requires Core(vm) && Core(wm)
    requires vm.offline == wm.offline && vm.heap == wm.heap && vm.hand == wm.hand
    requires Held(vm.ptes) == Held(wm.ptes)
    ensures vm.frames == wm.frames
  {
  }

  /** Injection into a set bounds the number of elements. */
  lemma {:induction false} InjectedSize(s: set<Ref>, dirs: set<nat>)
    requires forall r :: r in s ==> r.dir in dirs
    requires forall r, q :: r in s && q in s && r.dir == q.dir ==> r == q
    ensures |s| <= |dirs|
    decreases s
  {
    if s != {} {
      var r :| r in s;
      assert forall q :: q in s - {r} ==> q.dir in dirs - {r.dir};
      InjectedSize(s - {r}, dirs - {r.dir});
    }
  }

  lemma HoldersBounded(ptes: map<Ref, Pte>, dirs: set<nat>, f: nat)
    requires forall r :: r in ptes && ptes[r].frame == f ==> r.dir in dirs
    requires forall r, q :: r in ptes && q in ptes && r.dir == q.dir && ptes[r].frame == ptes[q].frame == f ==> r == q
    ensures Count(Held(ptes), f) <= |dirs|
  {
    InjectedSize(Of(Held(ptes), f), dirs);
  }

  /** No directory maps a frame twice, so a count is at most the number of address spaces and
      fits 16 bits as long as those do. */
  lemma MappingsBounded(vm: Vm, f: nat)
    requires Core(vm)
    ensures Mappings(vm, f) <= |vm.dirs|
  {
    assert forall r :: r in vm.ptes && PteOk(vm, r) ==> r.dir in vm.dirs;
    HoldersBounded(vm.ptes, vm.dirs, f);
  }

  lemma MappedFrameCounted(vm: Vm, r: Ref)
    requires Core(vm) && r in vm.ptes
    ensures vm.ptes[r].frame < SMALL_NUM
    ensures vm.frames[vm.ptes[r].frame] >= Mappings(vm, vm.ptes[r].frame) > 0
    ensures vm.hand == {} ==> vm.frames[vm.ptes[r].frame] == Mappings(vm, vm.ptes[r].frame)
    ensures InUse(vm.frames, vm.ptes[r].frame)
  {
    assert PteOk(vm, r);
    var held := Held(vm.ptes);
    assert r in held && held[r] == vm.ptes[r].frame;
    CountPositive(held, r);
    assert vm.frames[vm.ptes[r].frame] == Expected(vm, vm.ptes[r].frame);
  }

  lemma UnmappedEverywhere(vm: Vm, f: nat)
    requires Mappings(vm, f) == 0
    ensures forall r :: r in vm.ptes ==> vm.ptes[r].frame != f
  {
    CountZero(Held(vm.ptes), f);
    forall r | r in vm.ptes ensures vm.ptes[r].frame != f {
      assert r in Held(vm.ptes) && Held(vm.ptes)[r] == vm.ptes[r].frame;
    }
  }

  /** A frame the allocator accepts is mapped nowhere. */
  lemma AcceptableIsUnmapped(vm: Vm, f: nat, large: bool)
    requires Core(vm) && Acceptable(vm.frames, f, large)
    ensures UserFrame(vm, f) && f !in vm.hand && Mappings(vm, f) == 0
    ensures forall r :: r in vm.ptes ==> vm.ptes[r].frame != f
  {
    assert vm.frames[f] == Expected(vm, f) == 0;
    UnmappedEverywhere(vm, f);
  }

  // ---- Elementary steps -----------------------------------------------------------------------

  /** A frame goes to a page of the kernel heap. */
  ghost function TakeHeapPage(vm: Vm, h: nat, f: nat): Vm
    requires f < |vm.frames|
  {
    vm.(frames := vm.frames[f := KERNEL], heap := vm.heap[h := f])
  }

  lemma TakeHeapPageKeepsCore(vm: Vm, h: nat, f: nat)
    requires Core(vm) && h !in vm.heap && h < HEAP_PAGES && Acceptable(vm.frames, f, false)
    ensures Core(TakeHeapPage(vm, h, f))
  {
    AcceptableIsUnmapped(vm, f, false);
    TakeKeepsGood(vm.frames, f, false, KERNEL);
    var wm := TakeHeapPage(vm, h, f);
    assert forall k :: k in vm.heap ==> k in wm.heap && wm.heap[k] == vm.heap[k];
    assert forall g :: HeapFrame(wm.heap, g) <==> HeapFrame(vm.heap, g) || g == f by {
      assert h in wm.heap && wm.heap[h] == f;
    }
    forall g | 0 <= g < SMALL_NUM ensures wm.frames[g] == Expected(wm, g) {
      assert vm.frames[g] == Expected(vm, g);
    }
    forall r | r in wm.ptes ensures PteOk(wm, r) {
      assert PteOk(vm, r);
    }
  }

  /** Heap pages h, h + 1, ... on frames start, start + 1, ... */
  ghost function HeapRun(h: nat, num: nat, start: nat): (m: map<nat, nat>)
    ensures forall k :: k in m <==> h <= k < h + num
    ensures forall k :: k in m ==> m[k] == start + (k - h)
  {
    if num == 0 then map[] else HeapRun(h, num - 1, start)[h + num - 1 := start + num - 1]
  }

  /** Consecutive pages of the heap go on consecutive frames. */
  ghost function TakeRun(vm: Vm, h: nat, num: nat, start: nat): Vm
    requires start + num <= |vm.frames|
  {
    vm.(frames := MarkRun(vm.frames, start, num),
        heap := vm.heap + HeapRun(h, num, start))
  }

  lemma TakeRunKeepsCore(vm: Vm, h: nat, num: nat, start: nat)
    requires Core(vm) && h + num <= HEAP_PAGES && RunAcceptable(vm.frames, start, num)
    requires Good(MarkRun(vm.frames, start, num))
    requires forall k :: h <= k < h + num ==> k !in vm.heap
    ensures Core(TakeRun(vm, h, num, start))
  {
    forall g: nat | start <= g < start + num
      ensures Mappings(vm, g) == 0 && UserFrame(vm, g) && g !in vm.hand
    {
      assert SmallFree(vm.frames, g) && Acceptable(vm.frames, g, false);
      AcceptableIsUnmapped(vm, g, false);
    }
    TakeRunHeapFrames(vm, h, num, start);
    TakeRunHeap(vm, h, num, start);
    TakeRunAccounted(vm, h, num, start);
    TakeRunPlaced(vm, h, num, start);
  }

  lemma TakeRunHeapFrames(vm: Vm, h: nat, num: nat, start: nat)
    requires start + num <= |vm.frames|
    requires forall k :: h <= k < h + num ==> k !in vm.heap
    ensures forall g: nat :: HeapFrame(TakeRun(vm, h, num, start).heap, g) <==>
              HeapFrame(vm.heap, g) || start <= g < start + num
  {
    var wm := TakeRun(vm, h, num, start);
    forall g: nat ensures HeapFrame(wm.heap, g) <==> HeapFrame(vm.heap, g) || start <= g < start + num {
      if start <= g < start + num {
        assert h + (g - start) in wm.heap && wm.heap[h + (g - start)] == g;
      } else if HeapFrame(vm.heap, g) {
        var k :| k in vm.heap && vm.heap[k] == g;
        assert k in wm.heap;
      }
    }
  }

  lemma TakeRunHeap(vm: Vm, h: nat, num: nat, start: nat)
    requires HeapOk(vm) && LARGE_NUM <= start && start + num <= SMALL_NUM <= |vm.frames| && h + num <= HEAP_PAGES
    requires forall g: nat :: start <= g < start + num ==> UserFrame(vm, g)
    ensures HeapOk(TakeRun(vm, h, num, start))
  {
    var wm := TakeRun(vm, h, num, start);
    forall k | k in vm.heap ensures !(start <= vm.heap[k] < start + num) {
      assert HeapFrame(vm.heap, vm.heap[k]);
      assert !UserFrame(vm, vm.heap[k]);
    }
    forall k | h <= k < h + num ensures wm.heap[k] == start + (k - h) && wm.heap[k] !in vm.offline {
      assert UserFrame(vm, start + (k - h));
    }
  }

  lemma TakeRunAccounted(vm: Vm, h: nat, num: nat, start: nat)
    requires Accounted(vm) && start + num <= SMALL_NUM && LARGE_NUM <= start
    requires Good(MarkRun(vm.frames, start, num))
    requires forall g: nat :: start <= g < start + num ==> UserFrame(vm, g)
    requires forall g: nat :: HeapFrame(TakeRun(vm, h, num, start).heap, g) <==>
               HeapFrame(vm.heap, g) || start <= g < start + num
    ensures Accounted(TakeRun(vm, h, num, start))
  {
    var wm := TakeRun(vm, h, num, start);
    forall g | 0 <= g < SMALL_NUM ensures wm.frames[g] == Expected(wm, g) {
      assert vm.frames[g] == Expected(vm, g);
      assert start <= g < start + num ==> UserFrame(vm, g);
    }
  }

  lemma TakeRunPlaced(vm: Vm, h: nat, num: nat, start: nat)
    requires PtesOk(vm) && start + num <= |vm.frames|
    requires forall g: nat :: start <= g < start + num ==> Mappings(vm, g) == 0
    requires forall g: nat :: HeapFrame(TakeRun(vm, h, num, start).heap, g) <==>
               HeapFrame(vm.heap, g) || start <= g < start + num
    ensures PtesOk(TakeRun(vm, h, num, start))
  {
    var wm := TakeRun(vm, h, num, start);
    forall r | r in wm.ptes ensures PteOk(wm, r) {
      assert PteOk(vm, r);
      var f := vm.ptes[r].frame;
      assert r in Held(vm.ptes) && Held(vm.ptes)[r] == f;
      CountPositive(Held(vm.ptes), r);
      assert start <= f < start + num ==> Mappings(vm, f) == 0;
      assert HeapFrame(wm.heap, f) <==> HeapFrame(vm.heap, f);
    }
  }

  /** A heap page that is neither directory nor page table is given back. */
  ghost function DropHeapPage(vm: Vm, h: nat): Vm
    requires h in vm.heap && vm.heap[h] < |vm.frames|
  {
    vm.(frames := vm.frames[vm.heap[h] := UNUSED], heap := vm.heap - {h})
  }

  lemma DropHeapPageKeepsCore(vm: Vm, h: nat)
    requires Core(vm) && h in vm.heap && h !in vm.dirs && forall t :: t in vm.tables ==> vm.tables[t] != h
    ensures Core(DropHeapPage(vm, h))
    ensures vm.frames[vm.heap[h]] == KERNEL
  {
    var f := vm.heap[h];
    var wm := DropHeapPage(vm, h);
    assert vm.frames[f] == Expected(vm, f) == KERNEL;
    ChangeKeepsGood(vm.frames, f, UNUSED);
    assert forall g :: HeapFrame(wm.heap, g) <==> HeapFrame(vm.heap, g) && g != f by {
      forall g | HeapFrame(vm.heap, g) && g != f ensures HeapFrame(wm.heap, g) {
        var k :| k in vm.heap && vm.heap[k] == g;
        assert k in wm.heap;
      }
    }
    NobodyMapsHeapFrame(vm, f);
    forall g | 0 <= g < SMALL_NUM ensures wm.frames[g] == Expected(wm, g) {
      assert vm.frames[g] == Expected(vm, g);
    }
    forall r | r in wm.ptes ensures PteOk(wm, r) {
      assert PteOk(vm, r);
    }
  }

  lemma NobodyMapsHeapFrame(vm: Vm, f: nat)
    requires Core(vm) && HeapFrame(vm.heap, f)
    ensures Mappings(vm, f) == 0 && f !in vm.hand
  {
  }

  lemma SameAccounts(vm: Vm, wm: Vm)
    requires Accounted(vm)
    requires wm.frames == vm.frames && wm.offline == vm.offline && wm.heap == vm.heap
    requires wm.ptes == vm.ptes && wm.hand == vm.hand
    ensures Accounted(wm)
  {
  }

  /** A heap page becomes a directory without user pages. */
  ghost function AddDir(vm: Vm, d: nat): Vm {
    vm.(dirs := vm.dirs + {d})
  }

  lemma AddDirKeepsCore(vm: Vm, d: nat)
    requires Core(vm) && d in vm.heap && d !in vm.dirs && forall t :: t in vm.tables ==> vm.tables[t] != d
    ensures Core(AddDir(vm, d))
  {
  }

  ghost function RemoveDir(vm: Vm, d: nat): Vm {
    vm.(dirs := vm.dirs - {d})
  }

  lemma RemoveDirKeepsCore(vm: Vm, d: nat)
    requires Core(vm)
    requires forall t :: t in vm.tables ==> t.dir != d
    requires forall r :: r in vm.ptes ==> r.dir != d
    ensures Core(RemoveDir(vm, d))
  {
  }

  /** mk_user_table: an empty page table for a slot that has nothing. */
  ghost function AddTable(vm: Vm, d: nat, slot: nat, h: nat): Vm {
    vm.(tables := vm.tables[TableRef(d, slot) := h])
  }

  ghost predicate SlotEmpty(vm: Vm, d: nat, slot: nat) {
    TableRef(d, slot) !in vm.tables && Ref(d, Huge(slot)) !in vm.ptes
  }

  lemma AddTableKeepsCore(vm: Vm, d: nat, slot: nat, h: nat)
    requires Core(vm) && d in vm.dirs && UserSlot(slot) && SlotEmpty(vm, d, slot)
    requires h in vm.heap && h !in vm.dirs && forall t :: t in vm.tables ==> vm.tables[t] != h
    ensures Core(AddTable(vm, d, slot, h))
  {
    AddTablePlaced(vm, d, slot, h);
    AddTableOwners(vm, d, slot, h);
    SameAccounts(vm, AddTable(vm, d, slot, h));
  }

  lemma AddTableOwners(vm: Vm, d: nat, slot: nat, h: nat)
    requires OwnersOk(vm) && d in vm.dirs && UserSlot(slot)
    requires h in vm.heap && h !in vm.dirs && forall t :: t in vm.tables ==> vm.tables[t] != h
    ensures OwnersOk(AddTable(vm, d, slot, h))
  {
  }

  lemma AddTablePlaced(vm: Vm, d: nat, slot: nat, h: nat)
    requires PtesOk(vm) && SlotEmpty(vm, d, slot)
    ensures PtesOk(AddTable(vm, d, slot, h))
  {
  }

  ghost function RemoveTable(vm: Vm, d: nat, slot: nat): Vm {
    vm.(tables := vm.tables - {TableRef(d, slot)})
  }

  lemma RemoveTableKeepsCore(vm: Vm, d: nat, slot: nat)
    requires Core(vm)
    requires forall j :: Ref(d, Small(slot, j)) !in vm.ptes
    ensures Core(RemoveTable(vm, d, slot))
  {
  }

  /** alloc_phys_mem for a user page that is mapped later. */
  ghost function TakeInHand(vm: Vm, f: nat): Vm
    requires f < |vm.frames|
  {
    vm.(frames := vm.frames[f := 1], hand := vm.hand + {f})
  }

  lemma TakeInHandKeepsCore(vm: Vm, f: nat, large: bool)
    requires Core(vm) && Acceptable(vm.frames, f, large)
    ensures Core(TakeInHand(vm, f))
  {
  }

  /** A frame in hand is mapped at a free place. */
  ghost function PutDown(vm: Vm, r: Ref, f: nat, rw: bool): Vm {
    vm.(ptes := vm.ptes[r := Pte(f, rw, false)], hand := vm.hand - {f})
  }

  ghost predicate CanMap(vm: Vm, r: Ref, f: nat) {
    && r !in vm.ptes && r.dir in vm.dirs && UserSlot(r.page.slot)
    && (r.page.Huge? ==> f < LARGE_NUM && TableRef(r.dir, r.page.slot) !in vm.tables)
    && (r.page.Small? ==> f >= LARGE_NUM && r.page.index < ENTRIES && TableRef(r.dir, r.page.slot) in vm.tables)
  }

  lemma PutDownKeepsCore(vm: Vm, r: Ref, f: nat, rw: bool)
    requires Core(vm) && CanMap(vm, r, f) && f in vm.hand && Mappings(vm, f) == 0
    ensures Core(PutDown(vm, r, f, rw))
  {
    PutDownAccounted(vm, r, f, rw);
    PutDownPlaced(vm, r, f, rw);
    UnmappedEverywhere(vm, f);
  }

  lemma PutDownAccounted(vm: Vm, r: Ref, f: nat, rw: bool)
    requires Accounted(vm) && r !in vm.ptes && f in vm.hand && UserFrame(vm, f)
    ensures Accounted(PutDown(vm, r, f, rw))
  {
    var wm := PutDown(vm, r, f, rw);
    assert Held(wm.ptes) == Held(vm.ptes)[r := f];
    forall g | 0 <= g < SMALL_NUM ensures wm.frames[g] == Expected(wm, g) {
      assert vm.frames[g] == Expected(vm, g);
      CountAdd(Held(vm.ptes), r, f, g);
    }
  }

  lemma PutDownPlaced(vm: Vm, r: Ref, f: nat, rw: bool)
    requires PtesOk(vm) && CanMap(vm, r, f) && UserFrame(vm, f)
    ensures PtesOk(PutDown(vm, r, f, rw))
  {
  }

  /** One mapping goes and its frame is used once less. */
  ghost function Unmap(vm: Vm, r: Ref): Vm
    requires r in vm.ptes && vm.ptes[r].frame < |vm.frames|
  {
    var f := vm.ptes[r].frame;
    vm.(ptes := vm.ptes - {r}, frames := vm.frames[f := vm.frames[f] - 1])
  }

  lemma UnmapKeepsCore(vm: Vm, r: Ref)
    requires Core(vm) && r in vm.ptes
    ensures vm.ptes[r].frame < SMALL_NUM
    ensures Core(Unmap(vm, r))
  {
    MappedFrameCounted(vm, r);
    UnmapAccounted(vm, r);
    UnmapPlaced(vm, r);
  }

  lemma UnmapAccounted(vm: Vm, r: Ref)
    requires Accounted(vm) && r in vm.ptes && UserFrame(vm, vm.ptes[r].frame)
    requires InUse(vm.frames, vm.ptes[r].frame)
    ensures Accounted(Unmap(vm, r))
  {
    var f := vm.ptes[r].frame;
    var wm := Unmap(vm, r);
    ChangeKeepsGood(vm.frames, f, vm.frames[f] - 1);
    assert Held(wm.ptes) == Held(vm.ptes) - {r};
    forall g | 0 <= g < SMALL_NUM ensures wm.frames[g] == Expected(wm, g) {
      assert vm.frames[g] == Expected(vm, g);
      CountRemove(Held(vm.ptes), r, g);
    }
  }

  lemma UnmapPlaced(vm: Vm, r: Ref)
    requires PtesOk(vm) && r in vm.ptes && vm.ptes[r].frame < |vm.frames|
    ensures PtesOk(Unmap(vm, r))
  {
  }

  /** What clone_directory does to the entry it copies. */
  function SharedPte(e: Pte): Pte {
    if e.rw then Pte(e.frame, false, true) else e
  }

  ghost function Share(vm: Vm, src: nat, dst: nat, page: Page): Vm
    requires Ref(src, page) in vm.ptes && vm.ptes[Ref(src, page)].frame < |vm.frames|
  {
    var e := SharedPte(vm.ptes[Ref(src, page)]);
    vm.(ptes := vm.ptes[Ref(src, page) := e][Ref(dst, page) := e],
        frames := vm.frames[e.frame := Increment(vm.frames[e.frame])])
  }

  ghost predicate CanShare(vm: Vm, src: nat, dst: nat, page: Page) {
    && Ref(src, page) in vm.ptes && src != dst
    && CanMap(vm, Ref(dst, page), vm.ptes[Ref(src, page)].frame)
    && forall q :: q in vm.ptes && q.dir == dst ==> vm.ptes[q].frame != vm.ptes[Ref(src, page)].frame
  }

  lemma ShareKeepsCore(vm: Vm, src: nat, dst: nat, page: Page)
    requires Core(vm) && |vm.dirs| <= MAX_SPACES && vm.hand == {}
    requires CanShare(vm, src, dst, page)
    ensures vm.ptes[Ref(src, page)].frame < SMALL_NUM
    ensures Core(Share(vm, src, dst, page))
  {
    MappedFrameCounted(vm, Ref(src, page));
    ShareNoDouble(vm, src, dst, page);
    SharePlaced(vm, src, dst, page);
    ShareBounded(vm, src, dst, page);
    ShareAccounted(vm, src, dst, page);
  }

  lemma ShareNoDouble(vm: Vm, src: nat, dst: nat, page: Page)
    requires NoDouble(vm.ptes) && CanShare(vm, src, dst, page)
    requires vm.ptes[Ref(src, page)].frame < |vm.frames|
    ensures NoDouble(Share(vm, src, dst, page).ptes)
  {
  }

  lemma SharePlaced(vm: Vm, src: nat, dst: nat, page: Page)
    requires PtesOk(vm) && CanShare(vm, src, dst, page)
    requires vm.ptes[Ref(src, page)].frame < |vm.frames|
    ensures PtesOk(Share(vm, src, dst, page))
  {
  }

  lemma ShareBounded(vm: Vm, src: nat, dst: nat, page: Page)
    requires CanShare(vm, src, dst, page)
    requires vm.ptes[Ref(src, page)].frame < |vm.frames|
    requires PtesOk(Share(vm, src, dst, page)) && NoDouble(Share(vm, src, dst, page).ptes)
    ensures Mappings(vm, vm.ptes[Ref(src, page)].frame) < |vm.dirs|
  {
    var f := vm.ptes[Ref(src, page)].frame;
    var wm := Share(vm, src, dst, page);
    assert Held(wm.ptes) == Held(vm.ptes)[Ref(dst, page) := f];
    CountAdd(Held(vm.ptes), Ref(dst, page), f, f);
    assert forall s :: s in wm.ptes && PteOk(wm, s) ==> s.dir in wm.dirs;
    HoldersBounded(wm.ptes, wm.dirs, f);
  }

  /** The count of the shared frame rises by one, without passing 16 bits. */
  lemma ShareAccounted(vm: Vm, src: nat, dst: nat, page: Page)
    requires Accounted(vm) && vm.hand == {}
    requires CanShare(vm, src, dst, page)
    requires UserFrame(vm, vm.ptes[Ref(src, page)].frame)
    requires InUse(vm.frames, vm.ptes[Ref(src, page)].frame)
    requires Mappings(vm, vm.ptes[Ref(src, page)].frame) < MAX_SPACES
    ensures Accounted(Share(vm, src, dst, page))
  {
    var r, q := Ref(src, page), Ref(dst, page);
    var wm := Share(vm, src, dst, page);
    var f := vm.ptes[r].frame;
    assert Held(wm.ptes) == Held(vm.ptes)[q := f];
    ChangeKeepsGood(vm.frames, f, Increment(vm.frames[f]));
    forall g | 0 <= g < SMALL_NUM ensures wm.frames[g] == Expected(wm, g) {
      assert vm.frames[g] == Expected(vm, g);
      CountAdd(Held(vm.ptes), q, f, g);
    }
  }

  // ---- Privacy of writable pages -------------------------------------------------------------

  lemma SamePtesPrivate(vm: Vm, wm: Vm, except: set<Ref>)
    requires Private(vm, except) && wm.ptes == vm.ptes
    ensures Private(wm, except)
  {
  }

  lemma PutDownPrivate(vm: Vm, r: Ref, f: nat, rw: bool, except: set<Ref>)
    requires Private(vm, except) && r !in vm.ptes && Mappings(vm, f) == 0
    ensures Private(PutDown(vm, r, f, rw), except)
  {
    var wm := PutDown(vm, r, f, rw);
    assert Held(wm.ptes) == Held(vm.ptes)[r := f];
    UnmappedEverywhere(vm, f);
    forall q | q in wm.ptes && q !in except ensures WritableIsPrivate(wm, q) {
      CountAdd(Held(vm.ptes), r, f, wm.ptes[q].frame);
      if q != r { assert WritableIsPrivate(vm, q); }
    }
  }

  /** Two entries of one frame: neither may be written. */
  lemma SharedIsReadOnly(vm: Vm, r: Ref, q: Ref)
    requires r in vm.ptes && q in vm.ptes && r != q && vm.ptes[r].frame == vm.ptes[q].frame
    requires WritableIsPrivate(vm, q)
    ensures !vm.ptes[q].rw
  {
    if vm.ptes[q].rw {
      assert q in Held(vm.ptes) && r in Held(vm.ptes);
      CountOne(Held(vm.ptes), q, r);
    }
  }

  lemma UnmapPrivate(vm: Vm, r: Ref, except: set<Ref>)
    requires Private(vm, except) && r in vm.ptes && vm.ptes[r].frame < |vm.frames|
    ensures Private(Unmap(vm, r), except)
  {
    var wm := Unmap(vm, r);
    assert Held(wm.ptes) == Held(vm.ptes) - {r};
    forall q | q in wm.ptes && q !in except ensures WritableIsPrivate(wm, q) {
      assert WritableIsPrivate(vm, q);
      CountRemove(Held(vm.ptes), r, wm.ptes[q].frame);
      if vm.ptes[q].frame == vm.ptes[r].frame { SharedIsReadOnly(vm, r, q); }
    }
  }

  lemma SharePrivate(vm: Vm, src: nat, dst: nat, page: Page)
    requires Private(vm, {}) && CanShare(vm, src, dst, page)
    requires vm.ptes[Ref(src, page)].frame < |vm.frames|
    ensures Private(Share(vm, src, dst, page), {})
  {
    var r, q := Ref(src, page), Ref(dst, page);
    var f := vm.ptes[r].frame;
    var wm := Share(vm, src, dst, page);
    assert Held(wm.ptes) == Held(vm.ptes)[q := f];
    forall s | s in wm.ptes ensures WritableIsPrivate(wm, s) {
      if s != r && s != q {
        assert WritableIsPrivate(vm, s);
        CountAdd(Held(vm.ptes), q, f, wm.ptes[s].frame);
        if vm.ptes[s].frame == f { SharedIsReadOnly(vm, r, s); }
      }
    }
  }

  /** The last step of a copy-on-write fault: the entry moves to the frame in hand, the old frame
      is used once less. */
  ghost function Repoint(vm: Vm, r: Ref, f: nat): Vm
    requires r in vm.ptes && vm.ptes[r].frame < |vm.frames|
  {
    var left := vm.ptes[r].frame;
    vm.(ptes := vm.ptes[r := Pte(f, true, false)], hand := vm.hand - {f},
        frames := vm.frames[left := vm.frames[left] - 1])
  }

  lemma RepointInTwoSteps(vm: Vm, r: Ref, f: nat)
    requires r in vm.ptes && vm.ptes[r].frame < |vm.frames| && Mappings(vm, f) == 0
    ensures Repoint(vm, r, f) == PutDown(Unmap(vm, r), r, f, true)
    ensures Mappings(Unmap(vm, r), f) == 0
  {
  }

  lemma RepointKeepsCore(vm: Vm, r: Ref, f: nat)
    requires Core(vm) && r in vm.ptes && f in vm.hand && Mappings(vm, f) == 0
    requires f < LARGE_NUM <==> r.page.Huge?
    ensures vm.ptes[r].frame < SMALL_NUM && Core(Repoint(vm, r, f))
  {
    UnmapKeepsCore(vm, r);
    assert PteOk(vm, r);
    hide Core;
    RepointInTwoSteps(vm, r, f);
    PutDownKeepsCore(Unmap(vm, r), r, f, true);
  }

  /** Only the entry under way was allowed to break privacy, and it no longer does. */
  lemma RepointPrivate(vm: Vm, r: Ref, f: nat)
    requires Private(vm, {r}) && r in vm.ptes && vm.ptes[r].frame < |vm.frames| && Mappings(vm, f) == 0
    ensures Private(Repoint(vm, r, f), {})
  {
    UnmapPrivate(vm, r, {r});
    RepointInTwoSteps(vm, r, f);
    assert Private(Unmap(vm, r), {});
    PutDownPrivate(Unmap(vm, r), r, f, true, {});
  }
}
