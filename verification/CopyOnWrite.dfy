/** Lazy copying means the same as copying at once.

    The calls of src/mm/paging.c on user memory are given as relations between two states of the
    page tables.  Seen through what each address space reads, they act like a system without any
    sharing, in which fork copies every page on the spot. */
module CopyOnWrite {
  import opened FrameTable
  import opened Holders
  import opened AddressSpaces
  import opened Accounts

  // ---- What an address space reads -----------------------------------------------------------

  /** The k-th physical page of a frame. */
  function PhysicalPage(f: nat, k: nat): nat {
    if f < LARGE_NUM then f * PER_LARGE + k else f
  }

  function PagesOf(f: nat): nat {
    if f < LARGE_NUM then PER_LARGE else 1
  }

  /** The entry that translates virtual page `v`, a number below 2^20. */
  function RefAt(ptes: map<Ref, Pte>, d: nat, v: nat): Ref {
    var huge := Ref(d, Huge(v / ENTRIES));
    if huge in ptes then huge else Ref(d, Small(v / ENTRIES, v % ENTRIES))
  }

  predicate Present(vm: Vm, d: nat, v: nat) {
    RefAt(vm.ptes, d, v) in vm.ptes
  }

  ghost function Translate(vm: Vm, d: nat, v: nat): nat
    requires Present(vm, d, v)
  {
    PhysicalPage(vm.ptes[RefAt(vm.ptes, d, v)].frame, v % ENTRIES)
  }

  datatype UserPage = UserPage(bytes: Bytes, writable: bool)
  type Space = map<nat, UserPage>

  function BytesAt(mem: seq<Bytes>, p: nat): Bytes {
    if p < |mem| then mem[p] else []
  }

  ghost function ReadPage(vm: Vm, d: nat, v: nat): UserPage
    requires Present(vm, d, v)
  {
    var e := vm.ptes[RefAt(vm.ptes, d, v)];
    UserPage(BytesAt(vm.mem, Translate(vm, d, v)), e.rw || e.cow)
  }

  lemma TranslateInRange(vm: Vm, d: nat, v: nat)
    requires Core(vm) && Present(vm, d, v)
    ensures Translate(vm, d, v) < SMALL_NUM == |vm.mem|
  {
  }

  ghost function View(vm: Vm, d: nat): Space {
    map v: nat | v < SMALL_NUM && Present(vm, d, v) :: ReadPage(vm, d, v)
  }

  ghost function Spaces(vm: Vm): map<nat, Space> {
    map d | d in vm.dirs :: View(vm, d)
  }

  /** A physical page reached from two virtual pages is reached through the same frame. */
  lemma SamePageSameFrame(vm: Vm, d: nat, v: nat, e: nat, w: nat)
    requires Core(vm) && Present(vm, d, v) && Present(vm, e, w)
    requires Translate(vm, d, v) == Translate(vm, e, w)
    ensures vm.ptes[RefAt(vm.ptes, d, v)].frame == vm.ptes[RefAt(vm.ptes, e, w)].frame
  {
    var r, q := RefAt(vm.ptes, d, v), RefAt(vm.ptes, e, w);
    MappedFrameCounted(vm, r);
    MappedFrameCounted(vm, q);
    if vm.ptes[r].frame != vm.ptes[q].frame {
      FramesInUseAreDisjoint(vm.frames, vm.ptes[r].frame, vm.ptes[q].frame, Translate(vm, d, v));
    }
  }

  /** A page with an entry that allows writing is reached from nowhere else. */
  lemma WritableReachedOnce(vm: Vm, d: nat, v: nat, e: nat, w: nat)
    requires Inv(vm) && Present(vm, d, v) && Present(vm, e, w)
    requires vm.ptes[RefAt(vm.ptes, d, v)].rw
    requires Translate(vm, d, v) == Translate(vm, e, w)
    ensures d == e && v == w
  {
    SamePageSameFrame(vm, d, v, e, w);
    var r, q := RefAt(vm.ptes, d, v), RefAt(vm.ptes, e, w);
    assert WritableIsPrivate(vm, r);
    assert r in Held(vm.ptes) && q in Held(vm.ptes);
    CountOne(Held(vm.ptes), r, q);
    assert v / ENTRIES == r.page.slot == w / ENTRIES;
    assert PteOk(vm, r);
    assert v % ENTRIES == w % ENTRIES;
  }

  // ---- The calls, as relations ---------------------------------------------------------------

  /** The heap and the page tables grow, on frames that were available, for directory d. */
  ghost predicate Grows(vm: Vm, wm: Vm, d: nat) {
    HeapGrown(vm, wm, d) && PagesTaken(vm, wm) && TablesPlaced(vm, wm)
  }

  /** clone_directory(src) == dst: the shared frames gain a use each. */
  ghost predicate Forked(vm: Vm, wm: Vm, src: nat, dst: nat) {
    && ForkedEntries(vm, wm, src, dst)
    && Grows(vm, wm, dst) && FramesFollow(vm, wm, dst)
  }

  ghost predicate ForkedEntries(vm: Vm, wm: Vm, src: nat, dst: nat) {
    && wm.mem == vm.mem && wm.offline == vm.offline && wm.hand == vm.hand
    && dst !in vm.dirs && dst != src && dst !in vm.heap && dst in wm.heap && wm.dirs == vm.dirs + {dst}
    && (forall s: nat :: TableRef(dst, s) in wm.tables ==> TableRef(src, s) in vm.tables)
    && (forall s: nat, j: nat :: Ref(src, Small(s, j)) in vm.ptes ==> TableRef(dst, s) in wm.tables)
    && (forall r: Ref :: r.dir != src && r.dir != dst ==>
          (r in wm.ptes <==> r in vm.ptes) && (r in vm.ptes ==> wm.ptes[r] == vm.ptes[r]))
    && (forall p :: Ref(src, p) in wm.ptes <==> Ref(src, p) in vm.ptes)
    && (forall p :: Ref(dst, p) in wm.ptes <==> Ref(src, p) in vm.ptes)
    && (forall p :: Ref(src, p) in vm.ptes
          ==> wm.ptes[Ref(src, p)] == wm.ptes[Ref(dst, p)] == SharedPte(vm.ptes[Ref(src, p)]))
  }

  /** Memory of every frame that is mapped in `vm` is unchanged. */
  ghost predicate MappedMemoryKept(vm: Vm, wm: Vm)
    requires |vm.mem| == |wm.mem| == SMALL_NUM
  {
    forall r, k :: r in vm.ptes && 0 <= k < PagesOf(vm.ptes[r].frame) && PhysicalPage(vm.ptes[r].frame, k) < SMALL_NUM
      ==> wm.mem[PhysicalPage(vm.ptes[r].frame, k)] == vm.mem[PhysicalPage(vm.ptes[r].frame, k)]
  }

  ghost predicate Copied(before: seq<Bytes>, after: seq<Bytes>, f: nat, g: nat)
    requires |before| == |after| == SMALL_NUM
  {
    forall k :: 0 <= k < PagesOf(f) && PhysicalPage(f, k) < SMALL_NUM && PhysicalPage(g, k) < SMALL_NUM
      ==> after[PhysicalPage(g, k)] == before[PhysicalPage(f, k)]
  }

  /** A copy-on-write fault was resolved: entry r now allows writing, on a frame of its own with
      the bytes of the old one.  The temporary page may have left empty page tables behind. */
  ghost predicate Resolved(vm: Vm, wm: Vm, r: Ref) {
    && wm.offline == vm.offline && wm.hand == vm.hand
    && ResolvedEntry(vm, wm, r) && ResolvedFrame(vm, wm, r)
    && Grows(vm, wm, r.dir) && FramesFollow(vm, wm, r.dir)
  }

  /** The entry stays on a frame it alone uses, or moves to one that was available. */
  ghost predicate ResolvedFrame(vm: Vm, wm: Vm, r: Ref)
    requires r in vm.ptes && r in wm.ptes
  {
    var f, g := vm.ptes[r].frame, wm.ptes[r].frame;
    && f < |vm.frames| && !wm.ptes[r].cow
    && (if g == f then vm.frames[f] == 1
        else vm.frames[f] > 1 && Available(vm.frames, g) && !Gains(vm.heap, wm.heap, g))
    && (r.page.Huge? ==> wm.heap == vm.heap)
  }

  ghost predicate ResolvedEntry(vm: Vm, wm: Vm, r: Ref) {
    && MemOk(vm) && MemOk(wm) && wm.dirs == vm.dirs
    && r in vm.ptes && vm.ptes[r].cow && !vm.ptes[r].rw
    && wm.ptes.Keys == vm.ptes.Keys
    && (forall q :: q in vm.ptes && q != r ==> wm.ptes[q] == vm.ptes[q])
    && wm.ptes[r].rw
    && MappedMemoryKept(vm, wm)
    && (wm.ptes[r].frame < LARGE_NUM <==> vm.ptes[r].frame < LARGE_NUM)
    && Copied(vm.mem, wm.mem, vm.ptes[r].frame, wm.ptes[r].frame)
  }

  /** A store by user code through an entry that allows it. */
  ghost predicate Stored(vm: Vm, wm: Vm, d: nat, v: nat, off: nat, b: int) {
    && v < SMALL_NUM && off < PAGE_BYTES && MemOk(vm)
    && Present(vm, d, v) && vm.ptes[RefAt(vm.ptes, d, v)].rw
    && Translate(vm, d, v) < SMALL_NUM
    && wm == vm.(mem := vm.mem[Translate(vm, d, v) := vm.mem[Translate(vm, d, v)][off := b]])
  }

  /** A user write that goes through, with the fault handler run first where needed. */
  ghost predicate Wrote(vm: Vm, wm: Vm, d: nat, v: nat, off: nat, b: int) {
    || Stored(vm, wm, d, v, off, b)
    || (Present(vm, d, v) && exists mid :: Resolved(vm, mid, RefAt(vm.ptes, d, v)) && Stored(mid, wm, d, v, off, b))
  }

  function Zeros(): Bytes {
    seq(PAGE_BYTES, _ => 0)
  }

  /** `p` is one of the `num` pages from `first` on. */
  predicate InExtent(first: Page, num: nat, p: Page) {
    match first
    case Huge(slot) => p.Huge? && slot <= p.slot < slot + num
    case Small(slot, index) => p.Small? && p.slot == slot && index <= p.index < index + num
  }

  /** request_pages for user memory succeeded: exactly the pages asked for are new, on frames that
      were unused, and read as zeros. */
  ghost predicate Mapped(vm: Vm, wm: Vm, d: nat, first: Page, num: nat, ro: bool) {
    && wm.offline == vm.offline && wm.hand == vm.hand && d in vm.dirs
    && MappedEntries(vm, wm, d, first, num, ro) && MappedFrames(vm, wm, d, first, num)
    && Grows(vm, wm, d) && FramesFollow(vm, wm, d)
  }

  /** Each new page stands in a free place on an available frame of its own and of its size. */
  ghost predicate MappedFrames(vm: Vm, wm: Vm, d: nat, first: Page, num: nat) {
    && (forall p :: InExtent(first, num, p) ==> NewPageOk(vm, wm, Ref(d, p)))
    && (forall p, q :: InExtent(first, num, p) && InExtent(first, num, q) && p != q ==>
          OnOwnFrame(wm, Ref(d, p), Ref(d, q)))
    && (first.Huge? ==> wm.heap == vm.heap)
  }

  ghost predicate NewPageOk(vm: Vm, wm: Vm, r: Ref) {
    && r in wm.ptes && UserSlot(r.page.slot)
    && Available(vm.frames, wm.ptes[r].frame) && !Gains(vm.heap, wm.heap, wm.ptes[r].frame)
    && (r.page.Huge? ==> wm.ptes[r].frame < LARGE_NUM && TableRef(r.dir, r.page.slot) !in wm.tables)
    && (r.page.Small? ==>
          wm.ptes[r].frame >= LARGE_NUM && r.page.index < ENTRIES && TableRef(r.dir, r.page.slot) in wm.tables)
  }

  ghost predicate OnOwnFrame(wm: Vm, r: Ref, q: Ref) {
    r in wm.ptes && q in wm.ptes && wm.ptes[r].frame != wm.ptes[q].frame
  }

  ghost predicate MappedEntries(vm: Vm, wm: Vm, d: nat, first: Page, num: nat, ro: bool) {
    && MemOk(vm) && MemOk(wm) && wm.dirs == vm.dirs
    && (forall r :: r in wm.ptes <==> r in vm.ptes || (r.dir == d && InExtent(first, num, r.page)))
    && (forall r :: r in vm.ptes ==> wm.ptes[r] == vm.ptes[r] && (r.dir == d ==> !InExtent(first, num, r.page)))
    && (forall p :: InExtent(first, num, p) ==> FreshlyMapped(vm, wm, Ref(d, p), ro))
    && MappedMemoryKept(vm, wm)
  }

  ghost predicate FreshlyMapped(vm: Vm, wm: Vm, r: Ref, ro: bool)
    requires MemOk(wm)
  {
    && r in wm.ptes && wm.ptes[r].rw == !ro && !wm.ptes[r].cow
    && wm.ptes[r].frame < |vm.frames| && vm.frames[wm.ptes[r].frame] == UNUSED
    && forall k :: 0 <= k < PagesOf(wm.ptes[r].frame) && PhysicalPage(wm.ptes[r].frame, k) < SMALL_NUM
         ==> wm.mem[PhysicalPage(wm.ptes[r].frame, k)] == Zeros()
  }

  /** request_pages failed: all mappings are as before, hence so is every count but for the frames
      of empty page tables that may remain. */
  ghost predicate Refused(vm: Vm, wm: Vm, d: nat) {
    && wm.ptes == vm.ptes && wm.mem == vm.mem && wm.offline == vm.offline && wm.dirs == vm.dirs && wm.hand == vm.hand
    && HeapGrown(vm, wm, d)
  }

  /** The same, with what it does to the table of frames. */
  ghost predicate RefusedStep(vm: Vm, wm: Vm, d: nat) {
    d in vm.dirs && Refused(vm, wm, d) && Grows(vm, wm, d) && FramesFollow(vm, wm, d)
  }

  /** free_one_page for user memory. */
  ghost predicate Unmapped(vm: Vm, wm: Vm, r: Ref) {
    && wm == vm.(ptes := vm.ptes - {r}, frames := wm.frames)
    && FramesFollow(vm, wm, r.dir)
  }

  /** free_directory. */
  ghost predicate Exited(vm: Vm, wm: Vm, d: nat) {
    && d in vm.dirs && wm.mem == vm.mem && wm.offline == vm.offline && wm.hand == vm.hand
    && wm.dirs == vm.dirs - {d}
    && ExitedEntries(vm, wm, d)
    && ExitedHeap(vm, wm, d)
    && FramesFollow(vm, wm, d)
  }

  ghost predicate ExitedEntries(vm: Vm, wm: Vm, d: nat) {
    && (forall r :: r in wm.ptes <==> r in vm.ptes && r.dir != d)
    && (forall r :: r in wm.ptes ==> wm.ptes[r] == vm.ptes[r])
  }

  /** The pages of the directory and of its tables, and no others, are given back. */
  ghost predicate ExitedHeap(vm: Vm, wm: Vm, d: nat) {
    && (forall t :: t in wm.tables <==> t in vm.tables && t.dir != d)
    && (forall t :: t in wm.tables ==> wm.tables[t] == vm.tables[t])
    && (forall h :: h in wm.heap <==>
          h in vm.heap && h != d && forall t :: t in vm.tables && t.dir == d ==> vm.tables[t] != h)
    && (forall h :: h in wm.heap ==> wm.heap[h] == vm.heap[h])
  }

  /** request_pages and free_pages for the kernel: no directory or page table loses its page. */
  ghost predicate KernelMoved(vm: Vm, wm: Vm) {
    && wm == vm.(heap := wm.heap, frames := wm.frames)
    && HeapAgrees(vm.heap, wm.heap) && (PagesTaken(vm, wm) || wm.heap.Keys <= vm.heap.Keys)
    && OwnersStay(vm, wm)
    && FramesFollow(vm, wm, INIT_DIRECTORY)
  }

  ghost predicate OwnersStay(vm: Vm, wm: Vm) {
    && (forall d :: d in vm.dirs ==> d in wm.heap)
    && (forall t :: t in vm.tables ==> vm.tables[t] in wm.heap)
  }

  // ---- Each call keeps the invariant ---------------------------------------------------------

  ghost predicate GainsUnused(vm: Vm, wm: Vm) {
    forall f: nat :: Gains(vm.heap, wm.heap, f) ==> f < |vm.frames| && vm.frames[f] == UNUSED
  }

  lemma GrowsMeans(vm: Vm, wm: Vm, d: nat)
    requires Core(vm) && wm.offline == vm.offline && Grows(vm, wm, d) && d in wm.dirs
    requires wm.dirs == vm.dirs || (wm.dirs == vm.dirs + {d} && d !in vm.heap && d in wm.heap)
    ensures HeapOk(wm) && OwnersOk(wm) && HeapAgrees(vm.heap, wm.heap) && GainsUnused(vm, wm)
  {
    HeapGrows(vm, wm);
    hide Accounted, HeapOk, PtesOk, NoDouble, MemOk;
    OwnersGrow(vm, wm, d);
    hide OwnersOk, Core, HeapGrown, TablesPlaced;
  }

  /** A mapped frame lies under no new heap page. */
  lemma StillUserFrame(vm: Vm, wm: Vm, r: Ref)
    requires Core(vm) && r in vm.ptes && wm.offline == vm.offline
    requires HeapAgrees(vm.heap, wm.heap) && GainsUnused(vm, wm)
    ensures UserFrame(wm, vm.ptes[r].frame)
  {
    MappedFrameCounted(vm, r);
    var f := vm.ptes[r].frame;
    assert PteOk(vm, r);
    hide Core;
    assert HeapFrame(wm.heap, f) ==> HeapFrame(vm.heap, f) || Gains(vm.heap, wm.heap, f);
    hide HeapFrame, Gains;
  }

  lemma ForkedKeepsInv(vm: Vm, wm: Vm, src: nat, dst: nat)
    requires Inv(vm) && Forked(vm, wm, src, dst)
    ensures Inv(wm)
  {
    assert vm.hand == {} && wm.hand == {} && wm.offline == vm.offline && wm.mem == vm.mem && dst in wm.dirs;
    assert Private(vm, {}) && NoDouble(vm.ptes) && PtesOk(vm);
    hide Private, Accounted, HeapOk, OwnersOk, PtesOk, NoDouble, Grows, FramesFollow, ForkedEntries;
    ForkedStarts(vm, wm, src, dst);
    GrowsMeans(vm, wm, dst);
    hide Core;
    ForkedTaken(vm, wm, src, dst);
    ForkedOthers(vm, wm, src, dst);
    ForkedPlaced(vm, wm, src, dst);
    ForkedPrivate(vm, wm, src, dst);
    CoreFollows(vm, wm, dst, false);
  }

  lemma ForkedStarts(vm: Vm, wm: Vm, src: nat, dst: nat)
    requires Forked(vm, wm, src, dst)
    ensures wm.dirs == vm.dirs + {dst} && dst !in vm.heap && dst in wm.heap
    ensures Grows(vm, wm, dst) && FramesFollow(vm, wm, dst) && ForkedEntries(vm, wm, src, dst)
  {
    hide Grows, FramesFollow;
  }

  lemma ForkedOthers(vm: Vm, wm: Vm, src: nat, dst: nat)
    requires PtesOk(vm) && NoDouble(vm.ptes) && ForkedEntries(vm, wm, src, dst)
    ensures NoDouble(wm.ptes) && OthersStay(vm.ptes, wm.ptes, dst)
    ensures forall r: Ref :: r in vm.ptes ==> r.dir != dst
  {
    forall r: Ref | r in vm.ptes ensures r.dir != dst { assert PteOk(vm, r); }
    hide PtesOk, NoDouble;
    forall r: Ref
      ensures r in wm.ptes && r.dir != dst ==> r in vm.ptes && wm.ptes[r].frame == vm.ptes[r].frame
      ensures r in wm.ptes && r.dir == dst ==>
                Ref(src, r.page) in vm.ptes && wm.ptes[r].frame == vm.ptes[Ref(src, r.page)].frame
      ensures r in vm.ptes ==> r in wm.ptes
    {
      assert r == Ref(r.dir, r.page);
    }
    hide ForkedEntries;
    ForkedOnce(vm.ptes, wm.ptes, src, dst);
  }

  lemma ForkedOnce(ptes: map<Ref, Pte>, ptes': map<Ref, Pte>, src: nat, dst: nat)
    requires NoDouble(ptes)
    requires forall r: Ref :: r in ptes' && r.dir != dst ==> r in ptes && ptes'[r].frame == ptes[r].frame
    requires forall r: Ref :: r in ptes' && r.dir == dst ==>
               Ref(src, r.page) in ptes && ptes'[r].frame == ptes[Ref(src, r.page)].frame
    ensures NoDouble(ptes')
  {
  }

  lemma ForkedPlaced(vm: Vm, wm: Vm, src: nat, dst: nat)
    requires Core(vm) && ForkedEntries(vm, wm, src, dst) && Grows(vm, wm, dst)
    requires HeapAgrees(vm.heap, wm.heap) && GainsUnused(vm, wm)
    ensures PtesOk(wm)
  {
    assert PtesOk(vm);
    hide Core, PtesOk, HeapAgrees, GainsUnused, PagesTaken;
    forall r | r in wm.ptes ensures PteOk(wm, r) {
      var q := if r.dir == dst then Ref(src, r.page) else r;
      assert r == Ref(r.dir, r.page) && q in vm.ptes;
      assert PteOk(vm, q) by { assert PtesOk(vm); EntryPlaced(vm, q); }
      StillUserFrame(vm, wm, q);
      ForkedEntryOk(vm, wm, src, dst, r);
    }
    PlacedAll(wm);
  }

  lemma EntryPlaced(vm: Vm, r: Ref)
    requires PtesOk(vm) && r in vm.ptes
    ensures PteOk(vm, r)
  {
  }

  lemma PlacedAll(vm: Vm)
    requires forall r :: r in vm.ptes ==> PteOk(vm, r)
    ensures PtesOk(vm)
  {
  }

  lemma ForkedEntryOk(vm: Vm, wm: Vm, src: nat, dst: nat, r: Ref)
    requires ForkedEntries(vm, wm, src, dst) && HeapGrown(vm, wm, dst) && r in wm.ptes
    requires var q := if r.dir == dst then Ref(src, r.page) else r;
             q in vm.ptes && PteOk(vm, q) && UserFrame(wm, vm.ptes[q].frame)
    ensures PteOk(wm, r)
  {
    assert r == Ref(r.dir, r.page);
    hide UserFrame;
  }

  lemma ForkedTaken(vm: Vm, wm: Vm, src: nat, dst: nat)
    requires Core(vm) && ForkedEntries(vm, wm, src, dst) && Grows(vm, wm, dst) && FramesFollow(vm, wm, dst)
    ensures |vm.frames| == |wm.frames| == SMALL_NUM && TakenOk(vm, wm, false)
  {
    assert |vm.frames| == |wm.frames| == SMALL_NUM && PagesTaken(vm, wm);
    hide Core, Grows, FramesFollow, PagesTaken, ForkedEntries;
    ForkedSources(vm, wm, src, dst);
    forall r | r in wm.ptes && r.dir == dst && wm.ptes[r].frame < SMALL_NUM
      ensures vm.frames[wm.ptes[r].frame] != UNUSED
    {
      MappedFrameCounted(vm, Ref(src, r.page));
    }
    OnlyPagesTaken(vm, wm, dst);
  }

  lemma ForkedSources(vm: Vm, wm: Vm, src: nat, dst: nat)
    requires ForkedEntries(vm, wm, src, dst)
    ensures forall r: Ref :: r in wm.ptes && r.dir == dst ==>
              Ref(src, r.page) in vm.ptes && wm.ptes[r].frame == vm.ptes[Ref(src, r.page)].frame
  {
    forall r: Ref | r in wm.ptes && r.dir == dst
      ensures Ref(src, r.page) in vm.ptes && wm.ptes[r].frame == vm.ptes[Ref(src, r.page)].frame
    {
      assert r == Ref(dst, r.page);
    }
  }

  lemma ForkedPrivate(vm: Vm, wm: Vm, src: nat, dst: nat)
    requires Private(vm, {}) && ForkedEntries(vm, wm, src, dst)
    requires NoDouble(vm.ptes) && NoDouble(wm.ptes) && OthersStay(vm.ptes, wm.ptes, dst)
    requires forall r: Ref :: r in vm.ptes ==> r.dir != dst
    ensures Private(wm, {})
  {
    hide NoDouble, OthersStay, Mappings;
    forall r | r in wm.ptes && wm.ptes[r].rw ensures WritableIsPrivate(wm, r) {
      assert r == Ref(r.dir, r.page) && r.dir != src && r.dir != dst;
      assert r in vm.ptes && wm.ptes[r] == vm.ptes[r] && WritableIsPrivate(vm, r);
      var f := vm.ptes[r].frame;
      ForkedMappings(vm, wm, src, dst, r);
    }
  }

  lemma ForkedMappings(vm: Vm, wm: Vm, src: nat, dst: nat, r: Ref)
    requires ForkedEntries(vm, wm, src, dst) && r in vm.ptes && r.dir != src && Mappings(vm, vm.ptes[r].frame) == 1
    requires NoDouble(vm.ptes) && NoDouble(wm.ptes) && OthersStay(vm.ptes, wm.ptes, dst)
    requires forall r: Ref :: r in vm.ptes ==> r.dir != dst
    ensures Mappings(wm, vm.ptes[r].frame) == 1
  {
    var f := vm.ptes[r].frame;
    MappingsMove(vm, wm, dst, f);
    hide NoDouble, OthersStay;
    if Maps(wm.ptes, dst, f) {
      var q :| q in wm.ptes && q.dir == dst && wm.ptes[q].frame == f;
      assert q == Ref(dst, q.page) && Ref(src, q.page) in vm.ptes;
      SharedByTwo(vm, r, Ref(src, q.page));
    }
  }

  lemma SharedByTwo(vm: Vm, r: Ref, q: Ref)
    requires r in vm.ptes && q in vm.ptes && r != q && vm.ptes[r].frame == vm.ptes[q].frame
    ensures Mappings(vm, vm.ptes[r].frame) > 1
  {
    var s := Of(Held(vm.ptes), vm.ptes[r].frame);
    assert r in s && q in s && q in s - {r};
    assert |s - {r}| > 0;
  }

  // Entries either keep their frame or are entries of directory d on frames that were unused.

  ghost predicate OnUnused(vm: Vm, f: nat) {
    f < |vm.frames| && vm.frames[f] == UNUSED
  }

  ghost predicate EntryKept(vm: Vm, wm: Vm, r: Ref) {
    r in vm.ptes && r in wm.ptes && wm.ptes[r].frame == vm.ptes[r].frame
  }

  ghost predicate Refreshed(vm: Vm, wm: Vm, d: nat) {
    && (forall r :: r in wm.ptes ==> EntryKept(vm, wm, r) || (r.dir == d && OnUnused(vm, wm.ptes[r].frame)))
    && (forall r, q :: r in wm.ptes && q in wm.ptes && r != q && !EntryKept(vm, wm, r) && !EntryKept(vm, wm, q) ==>
          wm.ptes[r].frame != wm.ptes[q].frame)
    && (forall r: Ref :: r in vm.ptes && r.dir != d ==> r in wm.ptes)
  }

  lemma NotOnUnused(vm: Vm, r: Ref)
    requires Core(vm) && r in vm.ptes
    ensures !OnUnused(vm, vm.ptes[r].frame)
  {
    MappedFrameCounted(vm, r);
  }

  lemma RefreshedOnce(vm: Vm, wm: Vm, d: nat)
    requires Core(vm) && Refreshed(vm, wm, d)
    ensures NoDouble(wm.ptes) && OthersStay(vm.ptes, wm.ptes, d)
  {
    assert NoDouble(vm.ptes);
    forall r | r in vm.ptes ensures !OnUnused(vm, vm.ptes[r].frame) { NotOnUnused(vm, r); }
    RefreshedOthers(vm, wm, d);
    hide Core, OnUnused, NoDouble, OthersStay, Refreshed;
    forall r, q | r in wm.ptes && q in wm.ptes && r.dir == q.dir && wm.ptes[r].frame == wm.ptes[q].frame
      ensures r == q
    {
      RefreshedPair(vm, wm, d, r, q);
    }
    AllOnce(wm.ptes);
  }

  lemma RefreshedOthers(vm: Vm, wm: Vm, d: nat)
    requires Refreshed(vm, wm, d)
    ensures OthersStay(vm.ptes, wm.ptes, d)
  {
    hide OnUnused;
  }

  lemma RefreshedPair(vm: Vm, wm: Vm, d: nat, r: Ref, q: Ref)
    requires Refreshed(vm, wm, d) && NoDouble(vm.ptes)
    requires forall p :: p in vm.ptes ==> !OnUnused(vm, vm.ptes[p].frame)
    requires r in wm.ptes && q in wm.ptes && r.dir == q.dir && wm.ptes[r].frame == wm.ptes[q].frame
    ensures r == q
  {
    hide OnUnused, NoDouble;
    if EntryKept(vm, wm, r) && EntryKept(vm, wm, q) { MappedOnce(vm, r, q); }
  }

  lemma MappedOnce(vm: Vm, r: Ref, q: Ref)
    requires NoDouble(vm.ptes) && r in vm.ptes && q in vm.ptes && r.dir == q.dir && vm.ptes[r].frame == vm.ptes[q].frame
    ensures r == q
  {
  }

  lemma AllOnce(ptes: map<Ref, Pte>)
    requires forall r, q :: r in ptes && q in ptes && r.dir == q.dir && ptes[r].frame == ptes[q].frame ==> r == q
    ensures NoDouble(ptes)
  {
  }

  /** A frame in use is mapped by d afterwards exactly if one of d's entries on it was kept. */
  lemma RefreshedMaps(vm: Vm, wm: Vm, d: nat, f: nat)
    requires Refreshed(vm, wm, d) && Maps(wm.ptes, d, f) && !OnUnused(vm, f)
    ensures exists r: Ref :: r.dir == d && EntryKept(vm, wm, r) && wm.ptes[r].frame == f
  {
    var r :| r in wm.ptes && r.dir == d && wm.ptes[r].frame == f;
    hide OnUnused;
    assert EntryKept(vm, wm, r);
  }

  /** The number of entries on a fresh frame is one. */
  lemma FreshMappings(vm: Vm, wm: Vm, d: nat, r: Ref)
    requires Core(vm) && Refreshed(vm, wm, d) && r in wm.ptes && !EntryKept(vm, wm, r)
    ensures Mappings(wm, wm.ptes[r].frame) == 1
  {
    RefreshedOnce(vm, wm, d);
    var f := wm.ptes[r].frame;
    assert f < SMALL_NUM && vm.frames[f] == UNUSED && r.dir == d;
    UnusedIsFree(vm, f);
    UnusedUnmapped(vm, d, f);
    assert NoDouble(vm.ptes);
    hide Core, NoDouble, OthersStay, Refreshed;
    MappingsMove(vm, wm, d, f);
    assert Maps(wm.ptes, d, f);
  }

  /** Of a frame that keeps its entry in d, if it has one, it stays what it was. */
  lemma KeptMappings(vm: Vm, wm: Vm, d: nat, f: nat)
    requires Core(vm) && Refreshed(vm, wm, d) && f < SMALL_NUM && vm.frames[f] != UNUSED
    requires forall r: Ref :: r in vm.ptes && r.dir == d && vm.ptes[r].frame == f ==> EntryKept(vm, wm, r)
    ensures Mappings(wm, f) == Mappings(vm, f)
  {
    RefreshedOnce(vm, wm, d);
    assert NoDouble(vm.ptes) && |vm.frames| == SMALL_NUM;
    hide Core, NoDouble, OthersStay, Mappings;
    MappingsMove(vm, wm, d, f);
    if Maps(wm.ptes, d, f) { RefreshedMaps(vm, wm, d, f); }
    hide Refreshed;
    if Maps(vm.ptes, d, f) {
      var r :| r in vm.ptes && r.dir == d && vm.ptes[r].frame == f;
      assert EntryKept(vm, wm, r);
    }
  }

  lemma RefreshedTaken(vm: Vm, wm: Vm, d: nat, large: bool)
    requires Core(vm) && Refreshed(vm, wm, d) && PagesTaken(vm, wm) && FramesFollow(vm, wm, d)
    requires large ==> wm.heap == vm.heap
    requires forall r :: r in wm.ptes && !EntryKept(vm, wm, r) ==>
               Available(vm.frames, wm.ptes[r].frame) && (wm.ptes[r].frame < LARGE_NUM <==> large)
    ensures |vm.frames| == |wm.frames| == SMALL_NUM && TakenOk(vm, wm, large)
  {
    assert |vm.frames| == |wm.frames| == SMALL_NUM;
    hide Core, FramesFollow, Available, Refreshed;
    forall f: nat | f < SMALL_NUM && vm.frames[f] == UNUSED && wm.frames[f] != UNUSED
      ensures Available(vm.frames, f) && (f < LARGE_NUM <==> large)
    {
      TakenFor(vm, wm, d, f);
      UnusedUnmapped(vm, d, f);
      if !Gains(vm.heap, wm.heap, f) {
        var r :| r in wm.ptes && r.dir == d && wm.ptes[r].frame == f;
        if EntryKept(vm, wm, r) { NotOnUnused(vm, r); }
      }
    }
  }

  lemma MappedKeepsInv(vm: Vm, wm: Vm, d: nat, first: Page, num: nat, ro: bool)
    requires Inv(vm) && Mapped(vm, wm, d, first, num, ro)
    ensures Inv(wm)
  {
    assert vm.hand == {} && wm.hand == {} && wm.offline == vm.offline && wm.dirs == vm.dirs && d in wm.dirs;
    assert MemOk(wm) && Private(vm, {}) && PagesTaken(vm, wm) && HeapGrown(vm, wm, d) && TablesPlaced(vm, wm);
    hide Private, Accounted, HeapOk, OwnersOk, PtesOk, NoDouble, FramesFollow, MemOk, PagesTaken, HeapGrown,
         TablesPlaced, MappedEntries, MappedFrames;
    GrowsMeans(vm, wm, d);
    hide Core, Grows, GainsUnused;
    MappedRefreshed(vm, wm, d, first, num, ro);
    RefreshedOnce(vm, wm, d);
    MappedPlaced(vm, wm, d, first, num, ro);
    MappedTaken(vm, wm, d, first, num, ro);
    MappedPrivate(vm, wm, d, first, num, ro);
    CoreFollows(vm, wm, d, first.Huge?);
  }

  lemma MappedRefreshed(vm: Vm, wm: Vm, d: nat, first: Page, num: nat, ro: bool)
    requires MappedEntries(vm, wm, d, first, num, ro) && MappedFrames(vm, wm, d, first, num)
    ensures Refreshed(vm, wm, d)
    ensures forall r :: r in wm.ptes && !EntryKept(vm, wm, r) ==> r.dir == d && InExtent(first, num, r.page)
  {
    assert forall r :: r in wm.ptes <==> r in vm.ptes || (r.dir == d && InExtent(first, num, r.page));
    assert forall r :: r in vm.ptes ==> wm.ptes[r] == vm.ptes[r];
    hide MappedEntries, InExtent;
    forall r | r in wm.ptes && !EntryKept(vm, wm, r) ensures r.dir == d && OnUnused(vm, wm.ptes[r].frame) {
      assert NewPageOk(vm, wm, Ref(d, r.page));
    }
    forall r, q | r in wm.ptes && q in wm.ptes && r != q && !EntryKept(vm, wm, r) && !EntryKept(vm, wm, q)
      ensures wm.ptes[r].frame != wm.ptes[q].frame
    {
      assert OnOwnFrame(wm, Ref(d, r.page), Ref(d, q.page));
    }
  }

  lemma MappedPlaced(vm: Vm, wm: Vm, d: nat, first: Page, num: nat, ro: bool)
    requires Core(vm) && MappedEntries(vm, wm, d, first, num, ro) && MappedFrames(vm, wm, d, first, num)
    requires wm.offline == vm.offline && d in wm.dirs && HeapGrown(vm, wm, d) && TablesPlaced(vm, wm)
    requires HeapAgrees(vm.heap, wm.heap) && GainsUnused(vm, wm)
    ensures PtesOk(wm)
  {
    assert PtesOk(vm);
    hide Core, PtesOk, HeapAgrees, GainsUnused;
    forall r | r in wm.ptes ensures PteOk(wm, r) {
      if r in vm.ptes {
        EntryPlaced(vm, r);
        StillUserFrame(vm, wm, r);
        KeptEntryOk(vm, wm, d, r);
      } else {
        assert r == Ref(d, r.page) && InExtent(first, num, r.page);
        NewEntryOk(vm, wm, r);
      }
    }
    PlacedAll(wm);
  }

  lemma KeptEntryOk(vm: Vm, wm: Vm, d: nat, r: Ref)
    requires r in vm.ptes && PteOk(vm, r) && UserFrame(wm, vm.ptes[r].frame) && wm.dirs == vm.dirs
    requires r in wm.ptes && wm.ptes[r].frame == vm.ptes[r].frame && HeapGrown(vm, wm, d) && TablesPlaced(vm, wm)
    ensures PteOk(wm, r)
  {
    hide UserFrame;
    NoTableOverHuge(vm, wm);
    assert r == (if r.page.Huge? then Ref(r.dir, Huge(r.page.slot)) else r);
  }

  lemma NoTableOverHuge(vm: Vm, wm: Vm)
    requires TablesPlaced(vm, wm)
    ensures forall t :: t in wm.tables && Ref(t.dir, Huge(t.slot)) in wm.ptes ==> t in vm.tables
  {
  }

  lemma NewEntryOk(vm: Vm, wm: Vm, r: Ref)
    requires Core(vm) && wm.offline == vm.offline && HeapAgrees(vm.heap, wm.heap) && r.dir in wm.dirs
    requires NewPageOk(vm, wm, r)
    ensures PteOk(wm, r)
  {
    var f := wm.ptes[r].frame;
    UnusedIsFree(vm, f);
    hide Core;
    assert HeapFrame(wm.heap, f) ==> HeapFrame(vm.heap, f) || Gains(vm.heap, wm.heap, f);
  }

  lemma MappedTaken(vm: Vm, wm: Vm, d: nat, first: Page, num: nat, ro: bool)
    requires Core(vm) && MappedEntries(vm, wm, d, first, num, ro) && MappedFrames(vm, wm, d, first, num)
    requires Refreshed(vm, wm, d) && PagesTaken(vm, wm) && FramesFollow(vm, wm, d)
    requires forall r :: r in wm.ptes && !EntryKept(vm, wm, r) ==> r.dir == d && InExtent(first, num, r.page)
    ensures |vm.frames| == |wm.frames| == SMALL_NUM && TakenOk(vm, wm, first.Huge?)
  {
    hide Core, PagesTaken, FramesFollow, Refreshed, MappedEntries, Available;
    forall r | r in wm.ptes && !EntryKept(vm, wm, r)
      ensures Available(vm.frames, wm.ptes[r].frame) && (wm.ptes[r].frame < LARGE_NUM <==> first.Huge?)
    {
      assert NewPageOk(vm, wm, Ref(d, r.page)) && r == Ref(d, r.page);
    }
    RefreshedTaken(vm, wm, d, first.Huge?);
  }

  lemma MappedPrivate(vm: Vm, wm: Vm, d: nat, first: Page, num: nat, ro: bool)
    requires Core(vm) && Private(vm, {}) && MappedEntries(vm, wm, d, first, num, ro) && Refreshed(vm, wm, d)
    ensures Private(wm, {})
  {
    assert forall r :: r in vm.ptes ==> r in wm.ptes && wm.ptes[r] == vm.ptes[r];
    assert forall r :: r in wm.ptes && r !in vm.ptes ==> r.dir == d && FreshlyMapped(vm, wm, Ref(d, r.page), ro);
    hide Core, MappedEntries, Refreshed, Mappings;
    forall r | r in wm.ptes && wm.ptes[r].rw ensures WritableIsPrivate(wm, r) {
      if r in vm.ptes {
        assert WritableIsPrivate(vm, r);
        MappedFrameCounted(vm, r);
        KeptMappings(vm, wm, d, vm.ptes[r].frame);
      } else {
        assert r == Ref(d, r.page);
        FreshMappings(vm, wm, d, r);
      }
    }
  }

  lemma ResolvedKeepsInv(vm: Vm, wm: Vm, r: Ref)
    requires Inv(vm) && Resolved(vm, wm, r)
    ensures Inv(wm)
  {
    assert PteOk(vm, r);
    var d, large := r.dir, r.page.Huge?;
    assert vm.hand == {} && wm.hand == {} && wm.offline == vm.offline && wm.dirs == vm.dirs && d in wm.dirs;
    assert MemOk(wm) && Private(vm, {}) && PagesTaken(vm, wm) && HeapGrown(vm, wm, d) && TablesPlaced(vm, wm);
    hide Private, Accounted, HeapOk, OwnersOk, PtesOk, NoDouble, FramesFollow, MemOk, PagesTaken, HeapGrown,
         TablesPlaced, ResolvedEntry, ResolvedFrame;
    GrowsMeans(vm, wm, d);
    hide Core, Grows, GainsUnused;
    ResolvedRefreshed(vm, wm, r);
    RefreshedOnce(vm, wm, d);
    ResolvedPlaced(vm, wm, r);
    ResolvedTaken(vm, wm, r);
    ResolvedPrivate(vm, wm, r);
    CoreFollows(vm, wm, d, large);
  }

  lemma ResolvedRefreshed(vm: Vm, wm: Vm, r: Ref)
    requires ResolvedEntry(vm, wm, r) && ResolvedFrame(vm, wm, r)
    ensures Refreshed(vm, wm, r.dir)
    ensures forall q :: q in wm.ptes && !EntryKept(vm, wm, q) ==> q == r
  {
    assert forall q :: q in vm.ptes && q != r ==> wm.ptes[q] == vm.ptes[q];
    assert wm.ptes.Keys == vm.ptes.Keys;
    hide ResolvedEntry;
  }

  lemma ResolvedPlaced(vm: Vm, wm: Vm, r: Ref)
    requires Core(vm) && ResolvedEntry(vm, wm, r) && ResolvedFrame(vm, wm, r)
    requires wm.offline == vm.offline && HeapGrown(vm, wm, r.dir) && TablesPlaced(vm, wm)
    requires HeapAgrees(vm.heap, wm.heap) && GainsUnused(vm, wm)
    ensures PtesOk(wm)
  {
    assert PtesOk(vm);
    hide Core, PtesOk, HeapAgrees, GainsUnused, Available;
    forall q | q in wm.ptes ensures PteOk(wm, q) {
      EntryPlaced(vm, q);
      StillUserFrame(vm, wm, q);
      if wm.ptes[q].frame == vm.ptes[q].frame {
        KeptEntryOk(vm, wm, r.dir, q);
      } else {
        MovedEntryOk(vm, wm, r);
      }
    }
    PlacedAll(wm);
  }

  lemma MovedEntryOk(vm: Vm, wm: Vm, r: Ref)
    requires Core(vm) && wm.offline == vm.offline && HeapAgrees(vm.heap, wm.heap) && HeapGrown(vm, wm, r.dir)
    requires ResolvedEntry(vm, wm, r) && ResolvedFrame(vm, wm, r) && wm.ptes[r].frame != vm.ptes[r].frame
    requires PteOk(vm, r) && TablesPlaced(vm, wm)
    ensures PteOk(wm, r)
  {
    var f := wm.ptes[r].frame;
    UnusedIsFree(vm, f);
    hide Core, Available, MappedMemoryKept, Copied, MemOk;
    assert HeapFrame(wm.heap, f) ==> HeapFrame(vm.heap, f) || Gains(vm.heap, wm.heap, f);
    hide HeapFrame, Gains;
    NoTableOverHuge(vm, wm);
    assert r == (if r.page.Huge? then Ref(r.dir, Huge(r.page.slot)) else r);
  }

  lemma ResolvedTaken(vm: Vm, wm: Vm, r: Ref)
    requires Core(vm) && ResolvedEntry(vm, wm, r) && ResolvedFrame(vm, wm, r)
    requires Refreshed(vm, wm, r.dir) && PagesTaken(vm, wm) && FramesFollow(vm, wm, r.dir)
    requires forall q :: q in wm.ptes && !EntryKept(vm, wm, q) ==> q == r
    ensures |vm.frames| == |wm.frames| == SMALL_NUM && TakenOk(vm, wm, r.page.Huge?)
  {
    assert PteOk(vm, r);
    hide Core, PagesTaken, FramesFollow, Refreshed, Available, MappedMemoryKept, Copied, MemOk;
    RefreshedTaken(vm, wm, r.dir, r.page.Huge?);
  }

  lemma ResolvedPrivate(vm: Vm, wm: Vm, r: Ref)
    requires Core(vm) && vm.hand == {} && Private(vm, {}) && ResolvedEntry(vm, wm, r) && ResolvedFrame(vm, wm, r)
    requires Refreshed(vm, wm, r.dir)
    ensures Private(wm, {})
  {
    MappedFrameCounted(vm, r);
    hide Core, Refreshed, Mappings, MappedMemoryKept, Copied, MemOk, Available;
    var f := vm.ptes[r].frame;
    forall q | q in wm.ptes && wm.ptes[q].rw ensures WritableIsPrivate(wm, q) {
      if q != r {
        assert WritableIsPrivate(vm, q) && wm.ptes[q] == vm.ptes[q];
        MappedFrameCounted(vm, q);
        if vm.ptes[q].frame == f { SharedByTwo(vm, q, r); }
        KeptMappings(vm, wm, r.dir, vm.ptes[q].frame);
      } else if wm.ptes[r].frame == f {
        MappedFrameCounted(vm, r);
        KeptMappings(vm, wm, r.dir, f);
      } else {
        FreshMappings(vm, wm, r.dir, r);
      }
    }
  }

  lemma RefusedKeepsInv(vm: Vm, wm: Vm, d: nat)
    requires Inv(vm) && RefusedStep(vm, wm, d)
    ensures Inv(wm)
  {
    assert vm.hand == {} && wm.hand == {} && wm.offline == vm.offline && wm.dirs == vm.dirs && wm.ptes == vm.ptes;
    assert MemOk(wm) && NoDouble(wm.ptes);
    hide Private, Accounted, HeapOk, OwnersOk, PtesOk, NoDouble, FramesFollow, MemOk, Grows;
    GrowsMeans(vm, wm, d);
    SamePtesPrivate(vm, wm, {});
    RefusedPlaced(vm, wm, d);
    assert PagesTaken(vm, wm) by { GrowsPages(vm, wm, d); }
    SameEntriesTaken(vm, wm, d);
    hide Core, GainsUnused, HeapGrown;
    CoreFollows(vm, wm, d, false);
  }

  lemma GrowsPages(vm: Vm, wm: Vm, d: nat)
    requires Grows(vm, wm, d)
    ensures HeapGrown(vm, wm, d) && PagesTaken(vm, wm) && TablesPlaced(vm, wm)
  {
  }

  lemma SameEntriesTaken(vm: Vm, wm: Vm, d: nat)
    requires Core(vm) && wm.ptes == vm.ptes && PagesTaken(vm, wm) && FramesFollow(vm, wm, d)
    ensures |vm.frames| == |wm.frames| == SMALL_NUM && TakenOk(vm, wm, false)
  {
    assert |vm.frames| == |wm.frames| == SMALL_NUM;
    hide Core, PagesTaken, FramesFollow;
    forall r | r in wm.ptes && r.dir == d && wm.ptes[r].frame < SMALL_NUM
      ensures vm.frames[wm.ptes[r].frame] != UNUSED
    {
      NotOnUnused(vm, r);
    }
    OnlyPagesTaken(vm, wm, d);
  }

  lemma RefusedPlaced(vm: Vm, wm: Vm, d: nat)
    requires Core(vm) && wm.ptes == vm.ptes && wm.dirs == vm.dirs && wm.offline == vm.offline && Grows(vm, wm, d)
    requires HeapAgrees(vm.heap, wm.heap) && GainsUnused(vm, wm)
    ensures PtesOk(wm)
  {
    assert PtesOk(vm);
    GrowsPages(vm, wm, d);
    hide Core, PtesOk, HeapAgrees, GainsUnused, PagesTaken, Grows, HeapGrown, TablesPlaced;
    forall r | r in wm.ptes ensures PteOk(wm, r) {
      EntryPlaced(vm, r);
      StillUserFrame(vm, wm, r);
      KeptEntryOk(vm, wm, d, r);
    }
    PlacedAll(wm);
  }

  lemma KernelKeepsInv(vm: Vm, wm: Vm)
    requires Inv(vm) && KernelMoved(vm, wm)
    ensures Inv(wm)
  {
    assert vm.hand == {} && wm.hand == {} && wm.offline == vm.offline && wm.dirs == vm.dirs && wm.ptes == vm.ptes;
    assert MemOk(wm) && NoDouble(wm.ptes) && OwnersOk(wm);
    hide Private, Accounted, OwnersOk, PtesOk, NoDouble, FramesFollow, MemOk, OwnersStay;
    SamePtesPrivate(vm, wm, {});
    if PagesTaken(vm, wm) {
      HeapGrows(vm, wm);
      KernelGains(vm, wm);
      SameEntriesTaken(vm, wm, INIT_DIRECTORY);
    } else {
      hide PagesTaken;
      assert HeapOk(wm);
      assert GainsUnused(vm, wm);
      hide HeapOk;
      SameEntriesReturned(vm, wm, INIT_DIRECTORY);
    }
    hide Core, GainsUnused, HeapGrown, PagesTaken;
    KernelPlaced(vm, wm);
    CoreFollows(vm, wm, INIT_DIRECTORY, false);
  }

  lemma KernelGains(vm: Vm, wm: Vm)
    requires PagesTaken(vm, wm)
    ensures GainsUnused(vm, wm)
  {
  }

  lemma SameEntriesReturned(vm: Vm, wm: Vm, d: nat)
    requires Core(vm) && FramesFollow(vm, wm, d) && wm.heap.Keys <= vm.heap.Keys
    requires forall r :: r in wm.ptes && r.dir == d ==> r in vm.ptes && wm.ptes[r] == vm.ptes[r]
    ensures |vm.frames| == |wm.frames| == SMALL_NUM && TakenOk(vm, wm, false)
  {
    assert |vm.frames| == |wm.frames| == SMALL_NUM;
    hide Core, FramesFollow, Available;
    forall f: nat | f < SMALL_NUM && vm.frames[f] == UNUSED ensures wm.frames[f] == UNUSED {
      UnusedUnmapped(vm, d, f);
      if wm.frames[f] != UNUSED { TakenFor(vm, wm, d, f); }
    }
  }

  lemma KernelPlaced(vm: Vm, wm: Vm)
    requires Core(vm) && wm.ptes == vm.ptes && wm.dirs == vm.dirs && wm.offline == vm.offline && wm.tables == vm.tables
    requires HeapAgrees(vm.heap, wm.heap) && GainsUnused(vm, wm)
    ensures PtesOk(wm)
  {
    assert PtesOk(vm);
    hide Core, PtesOk, HeapAgrees, GainsUnused;
    forall r | r in wm.ptes ensures PteOk(wm, r) {
      EntryPlaced(vm, r);
      StillUserFrame(vm, wm, r);
      hide UserFrame;
    }
    PlacedAll(wm);
  }

  lemma UnmappedKeepsInv(vm: Vm, wm: Vm, r: Ref)
    requires Inv(vm) && r in vm.ptes && Unmapped(vm, wm, r)
    ensures Inv(wm)
  {
    MappedFrameCounted(vm, r);
    assert NoDouble(vm.ptes);
    UnmappedFrames(vm, wm, r);
    UnmapKeepsCore(vm, r);
    hide Core;
    UnmapPrivate(vm, r, {});
  }

  lemma UnmappedFrames(vm: Vm, wm: Vm, r: Ref)
    requires NoDouble(vm.ptes) && r in vm.ptes && Unmapped(vm, wm, r) && vm.ptes[r].frame < |vm.frames|
    ensures wm == Unmap(vm, r)
  {
    forall f: nat | f < SMALL_NUM
      ensures wm.frames[f] == vm.frames[f] - if f == vm.ptes[r].frame then 1 else 0
    {
      assert wm.frames[f] == Followed(vm, wm, r.dir, f);
      assert Maps(wm.ptes, r.dir, f) ==> Maps(vm.ptes, r.dir, f);
      assert f != vm.ptes[r].frame && Maps(vm.ptes, r.dir, f) ==> Maps(wm.ptes, r.dir, f);
    }
  }

  lemma ExitedKeepsInv(vm: Vm, wm: Vm, d: nat)
    requires Inv(vm) && Exited(vm, wm, d)
    ensures Inv(wm)
  {
    assert vm.hand == {} && wm.hand == {} && wm.offline == vm.offline && MemOk(wm) && Private(vm, {});
    hide Private, FramesFollow, MemOk, Accounted;
    ExitedHeapOk(vm, wm, d);
    ExitedPlaced(vm, wm, d);
    hide HeapOk, OwnersOk, PtesOk, HeapAgrees;
    ExitedOnce(vm, wm, d);
    hide NoDouble, OthersStay, ExitedHeap, Core;
    ExitedPrivate(vm, wm, d);
    SameEntriesReturned(vm, wm, d);
    CoreFollows(vm, wm, d, false);
  }

  lemma ExitedHeapOk(vm: Vm, wm: Vm, d: nat)
    requires HeapOk(vm) && OwnersOk(vm) && d in vm.dirs && wm.dirs == vm.dirs - {d} && wm.offline == vm.offline
    requires ExitedHeap(vm, wm, d)
    ensures HeapOk(wm) && OwnersOk(wm) && HeapAgrees(vm.heap, wm.heap) && wm.heap.Keys <= vm.heap.Keys
  {
    ExitedOwners(vm, wm, d);
    hide OwnersOk;
  }

  lemma ExitedOwners(vm: Vm, wm: Vm, d: nat)
    requires OwnersOk(vm) && d in vm.dirs && wm.dirs == vm.dirs - {d} && ExitedHeap(vm, wm, d)
    ensures OwnersOk(wm)
  {
    forall h | h in vm.heap && h != d && forall t :: t in vm.tables && t.dir == d ==> vm.tables[t] != h
      ensures h in wm.heap
    {
    }
    forall t | t in wm.tables ensures wm.tables[t] in wm.heap && t.dir in wm.dirs {
      assert t in vm.tables && t.dir != d && vm.tables[t] == wm.tables[t];
      forall u | u in vm.tables && u.dir == d ensures vm.tables[u] != vm.tables[t] {
        assert u != t;
      }
    }
  }

  lemma ExitedPlaced(vm: Vm, wm: Vm, d: nat)
    requires PtesOk(vm) && wm.dirs == vm.dirs - {d} && wm.offline == vm.offline
    requires ExitedHeap(vm, wm, d) && ExitedEntries(vm, wm, d)
    ensures PtesOk(wm)
  {
  }

  lemma ExitedOnce(vm: Vm, wm: Vm, d: nat)
    requires NoDouble(vm.ptes) && ExitedEntries(vm, wm, d)
    ensures NoDouble(wm.ptes) && OthersStay(vm.ptes, wm.ptes, d)
  {
  }

  lemma ExitedPrivate(vm: Vm, wm: Vm, d: nat)
    requires Private(vm, {}) && ExitedEntries(vm, wm, d)
    requires NoDouble(vm.ptes) && NoDouble(wm.ptes) && OthersStay(vm.ptes, wm.ptes, d)
    ensures Private(wm, {})
  {
    hide NoDouble, OthersStay, Mappings;
    forall r | r in wm.ptes && wm.ptes[r].rw ensures WritableIsPrivate(wm, r) {
      assert WritableIsPrivate(vm, r);
      var f := vm.ptes[r].frame;
      MappingsMove(vm, wm, d, f);
      if Maps(vm.ptes, d, f) {
        var q :| q in vm.ptes && q.dir == d && vm.ptes[q].frame == f;
        SharedByTwo(vm, r, q);
      }
      assert !Maps(wm.ptes, d, f);
    }
  }

  // ---- Each call refines its counterpart without sharing -------------------------------------

  lemma ViewKept(vm: Vm, wm: Vm, d: nat)
    requires forall v :: 0 <= v < SMALL_NUM ==> (Present(vm, d, v) <==> Present(wm, d, v))
    requires forall v :: 0 <= v < SMALL_NUM && Present(vm, d, v) ==> ReadPage(vm, d, v) == ReadPage(wm, d, v)
    ensures View(vm, d) == View(wm, d)
  {
  }

  /** Fork gives the child a copy of all the parent reads and changes nobody's reads. */
  lemma ForkCopies(vm: Vm, wm: Vm, src: nat, dst: nat)
    requires Forked(vm, wm, src, dst)
    ensures forall d :: d in vm.dirs ==> View(wm, d) == View(vm, d)
    ensures View(wm, dst) == View(vm, src)
  {
    hide Grows, FramesFollow;
    forall d | d in vm.dirs ensures View(wm, d) == View(vm, d) {
      EntriesSharedRead(vm, wm, d, d);
    }
    EntriesSharedRead(vm, wm, src, dst);
  }

  lemma EntriesSharedRead(vm: Vm, wm: Vm, d: nat, e: nat)
    requires wm.mem == vm.mem
    requires forall p :: Ref(e, p) in wm.ptes <==> Ref(d, p) in vm.ptes
    requires forall p :: Ref(d, p) in vm.ptes ==>
      wm.ptes[Ref(e, p)] == vm.ptes[Ref(d, p)] || wm.ptes[Ref(e, p)] == SharedPte(vm.ptes[Ref(d, p)])
    ensures View(wm, e) == View(vm, d)
  {
  }

  /** Resolving a fault is invisible. */
  lemma ResolveInvisible(vm: Vm, wm: Vm, r: Ref)
    requires Inv(vm) && Resolved(vm, wm, r)
    ensures Inv(wm) && Spaces(wm) == Spaces(vm)
  {
    ResolvedKeepsInv(vm, wm, r);
    hide Accounted, HeapOk, OwnersOk, PtesOk, NoDouble, Grows, FramesFollow, ResolvedFrame, Private, ResolvedEntry,
         Spaces;
    ResolvedEntryInvisible(vm, wm, r);
  }

  lemma ResolvedEntryInvisible(vm: Vm, wm: Vm, r: Ref)
    requires PtesOk(vm) && PtesOk(wm) && ResolvedEntry(vm, wm, r)
    ensures Spaces(wm) == Spaces(vm)
  {
    forall d | d in vm.dirs ensures View(wm, d) == View(vm, d) {
      forall v | 0 <= v < SMALL_NUM && Present(vm, d, v)
        ensures ReadPage(vm, d, v) == ReadPage(wm, d, v)
      {
        assert PteOk(vm, RefAt(vm.ptes, d, v)) && PteOk(wm, RefAt(vm.ptes, d, v));
        ResolveReadKept(vm, wm, r, d, v);
      }
      ViewKept(vm, wm, d);
    }
  }

  lemma ResolveReadKept(vm: Vm, wm: Vm, r: Ref, d: nat, v: nat)
    requires ResolvedEntry(vm, wm, r) && Present(vm, d, v)
    requires PteOk(vm, RefAt(vm.ptes, d, v)) && PteOk(wm, RefAt(vm.ptes, d, v))
    ensures ReadPage(vm, d, v) == ReadPage(wm, d, v)
  {
    var q := RefAt(vm.ptes, d, v);
    assert q == RefAt(wm.ptes, d, v);
    var f, g := vm.ptes[q].frame, wm.ptes[q].frame;
    var k := if f < LARGE_NUM then v % ENTRIES else 0;
    assert Translate(vm, d, v) == PhysicalPage(f, k) < SMALL_NUM;
    assert Translate(wm, d, v) == PhysicalPage(g, k) < SMALL_NUM;
  }

  /** A store changes one byte of one page of one address space. */
  lemma StoreIsolated(vm: Vm, wm: Vm, d: nat, v: nat, off: nat, b: int)
    requires Inv(vm) && Stored(vm, wm, d, v, off, b)
    ensures d in vm.dirs && v in View(vm, d)
    ensures |View(vm, d)[v].bytes| == PAGE_BYTES
    ensures View(wm, d) == View(vm, d)[v := UserPage(View(vm, d)[v].bytes[off := b], true)]
    ensures forall e :: e in vm.dirs && e != d ==> View(wm, e) == View(vm, e)
  {
    assert PteOk(vm, RefAt(vm.ptes, d, v));
    forall e: nat, w: nat | w < SMALL_NUM && Present(vm, e, w) && !(e == d && w == v)
      ensures Translate(vm, e, w) != Translate(vm, d, v)
    {
      if Translate(vm, e, w) == Translate(vm, d, v) {
        WritableReachedOnce(vm, d, v, e, w);
      }
    }
    StoreReads(vm, wm, d, v, off, b);
  }

  lemma StoreReads(vm: Vm, wm: Vm, d: nat, v: nat, off: nat, b: int)
    requires Stored(vm, wm, d, v, off, b)
    requires forall e: nat, w: nat | w < SMALL_NUM && Present(vm, e, w) && !(e == d && w == v) ::
               Translate(vm, e, w) != Translate(vm, d, v)
    ensures |View(vm, d)[v].bytes| == PAGE_BYTES
    ensures View(wm, d) == View(vm, d)[v := UserPage(View(vm, d)[v].bytes[off := b], true)]
    ensures forall e :: e != d ==> View(wm, e) == View(vm, e)
  {
  }

  lemma StoreKeepsInv(vm: Vm, wm: Vm, d: nat, v: nat, off: nat, b: int)
    requires Inv(vm) && Stored(vm, wm, d, v, off, b)
    ensures Inv(wm)
  {
    SameAccounts(vm, wm);
    forall r | r in wm.ptes ensures PteOk(wm, r) && WritableIsPrivate(wm, r) {
      assert PteOk(vm, r) && WritableIsPrivate(vm, r);
    }
  }

  /** The virtual pages of a page. */
  predicate InPage(p: Page, v: nat) {
    v / ENTRIES == p.slot && (p.Small? ==> v % ENTRIES == p.index)
  }

  predicate InRun(first: Page, num: nat, v: nat) {
    match first
    case Huge(slot) => slot <= v / ENTRIES < slot + num
    case Small(slot, index) => v / ENTRIES == slot && index <= v % ENTRIES < index + num
  }

  /** Mapping adds pages of zeros, and nothing else, to one address space. */
  lemma MapAddsZeros(vm: Vm, wm: Vm, d: nat, first: Page, num: nat, ro: bool)
    requires PtesOk(vm) && PtesOk(wm) && MappedEntries(vm, wm, d, first, num, ro)
    ensures View(wm, d) == View(vm, d) + map v: nat | v < SMALL_NUM && InRun(first, num, v) :: UserPage(Zeros(), !ro)
    ensures |Zeros()| == 4096 && forall i :: 0 <= i < |Zeros()| ==> Zeros()[i] == 0
    ensures forall v :: v in View(vm, d) ==> !InRun(first, num, v)
    ensures forall e :: e != d ==> View(wm, e) == View(vm, e)
  {
    hide PtesOk, MappedEntries, Present, ReadPage, InRun;
    MapAddsRun(vm, wm, d, first, num, ro);
    forall e: nat | e != d ensures View(wm, e) == View(vm, e) {
      hide View;
      MapKeepsOthers(vm, wm, d, first, num, ro, e);
    }
  }

  lemma MapAddsRun(vm: Vm, wm: Vm, d: nat, first: Page, num: nat, ro: bool)
    requires PtesOk(vm) && PtesOk(wm) && MappedEntries(vm, wm, d, first, num, ro)
    ensures View(wm, d) == View(vm, d) + map v: nat | v < SMALL_NUM && InRun(first, num, v) :: UserPage(Zeros(), !ro)
    ensures forall v :: v in View(vm, d) ==> !InRun(first, num, v)
  {
    hide PtesOk, MappedEntries, Present, ReadPage, InRun;
    forall v: nat | v < SMALL_NUM && InRun(first, num, v)
      ensures !Present(vm, d, v) && Present(wm, d, v) && ReadPage(wm, d, v) == UserPage(Zeros(), !ro)
    {
      NewPageRead(vm, wm, d, first, num, ro, v);
    }
    forall v: nat | v < SMALL_NUM && !InRun(first, num, v)
      ensures Present(vm, d, v) <==> Present(wm, d, v)
      ensures Present(vm, d, v) ==> ReadPage(wm, d, v) == ReadPage(vm, d, v)
    {
      OldPageRead(vm, wm, d, first, num, ro, d, v);
    }
  }

  lemma MapKeepsOthers(vm: Vm, wm: Vm, d: nat, first: Page, num: nat, ro: bool, e: nat)
    requires PtesOk(vm) && MappedEntries(vm, wm, d, first, num, ro) && e != d
    ensures View(wm, e) == View(vm, e)
  {
    hide PtesOk, MappedEntries, View, Present, ReadPage;
    forall v: nat | v < SMALL_NUM
      ensures Present(vm, e, v) <==> Present(wm, e, v)
      ensures Present(vm, e, v) ==> ReadPage(wm, e, v) == ReadPage(vm, e, v)
    {
      OldPageRead(vm, wm, d, first, num, ro, e, v);
    }
    ViewKept(vm, wm, e);
  }

  /** The page of a run that translates virtual page `v`. */
  function PageAt(first: Page, v: nat): Page {
    if first.Huge? then Huge(v / ENTRIES) else Small(v / ENTRIES, v % ENTRIES)
  }

  lemma NewPageRead(vm: Vm, wm: Vm, d: nat, first: Page, num: nat, ro: bool, v: nat)
    requires PtesOk(vm) && PtesOk(wm) && MappedEntries(vm, wm, d, first, num, ro)
    requires v < SMALL_NUM && InRun(first, num, v)
    ensures !Present(vm, d, v) && Present(wm, d, v) && ReadPage(wm, d, v) == UserPage(Zeros(), !ro)
  {
    var r := Ref(d, PageAt(first, v));
    assert InExtent(first, num, r.page);
    assert FreshlyMapped(vm, wm, r, ro) && PteOk(wm, r);
    OnlyOneSize(wm, r);
    assert RefAt(wm.ptes, d, v) == r;
    var k := if first.Huge? then v % ENTRIES else 0;
    assert Translate(wm, d, v) == PhysicalPage(wm.ptes[r].frame, k) < SMALL_NUM;
  }

  /** A slot holds a huge page or small pages, not both. */
  lemma OnlyOneSize(vm: Vm, r: Ref)
    requires PtesOk(vm) && r in vm.ptes
    ensures r.page.Huge? ==> forall j :: Ref(r.dir, Small(r.page.slot, j)) !in vm.ptes
    ensures r.page.Small? ==> Ref(r.dir, Huge(r.page.slot)) !in vm.ptes
  {
  }

  lemma OldPageRead(vm: Vm, wm: Vm, d: nat, first: Page, num: nat, ro: bool, e: nat, v: nat)
    requires PtesOk(vm) && MappedEntries(vm, wm, d, first, num, ro)
    requires v < SMALL_NUM && !(e == d && InRun(first, num, v))
    ensures Present(vm, e, v) <==> Present(wm, e, v)
    ensures Present(vm, e, v) ==> ReadPage(wm, e, v) == ReadPage(vm, e, v)
  {
    var r := RefAt(vm.ptes, e, v);
    assert RefAt(wm.ptes, e, v) == r;
    if r in vm.ptes {
      assert PteOk(vm, r);
      var k := if vm.ptes[r].frame < LARGE_NUM then v % ENTRIES else 0;
      assert Translate(vm, e, v) == PhysicalPage(vm.ptes[r].frame, k) < SMALL_NUM;
    }
  }

  /** Unmapping takes away the virtual pages of one page from one address space. */
  lemma UnmapRemoves(vm: Vm, wm: Vm, r: Ref)
    requires PtesOk(vm) && wm.ptes == vm.ptes - {r} && wm.mem == vm.mem && r in vm.ptes
    ensures View(wm, r.dir) == map v: nat | v in View(vm, r.dir) && !InPage(r.page, v) :: View(vm, r.dir)[v]
    ensures forall e :: e != r.dir ==> View(wm, e) == View(vm, e)
  {
    forall e: nat, v: nat | v < SMALL_NUM
      ensures Present(wm, e, v) <==> Present(vm, e, v) && !(e == r.dir && InPage(r.page, v))
      ensures Present(wm, e, v) ==> ReadPage(wm, e, v) == ReadPage(vm, e, v)
    {
      OnlyOneSize(vm, r);
    }
    forall e: nat | e != r.dir ensures View(wm, e) == View(vm, e) {
      ViewKept(vm, wm, e);
    }
  }

  // ---- Runs ----------------------------------------------------------------------------------

  datatype Event =
    | Fork(src: nat, dst: nat)
    | Write(dir: nat, v: nat, off: nat, b: int)
    | Map(dir: nat, first: Page, num: nat, ro: bool)
    | RefuseMap(dir: nat)
    | Kernel                      // the kernel takes or returns pages of its own
    | Release(dir: nat, page: Page)
    | Exit(dir: nat)

  ghost predicate Step(vm: Vm, e: Event, wm: Vm) {
    match e
    case Fork(src, dst) => Forked(vm, wm, src, dst)
    case Write(d, v, off, b) => Wrote(vm, wm, d, v, off, b)
    case Map(d, first, num, ro) => Mapped(vm, wm, d, first, num, ro)
    case RefuseMap(d) => RefusedStep(vm, wm, d)
    case Kernel => KernelMoved(vm, wm)
    case Release(d, page) => Ref(d, page) in vm.ptes && Unmapped(vm, wm, Ref(d, page))
    case Exit(d) => Exited(vm, wm, d)
  }

  /** The same call in a system where every page belongs to one address space. */
  ghost function EagerStep(spaces: map<nat, Space>, e: Event): map<nat, Space> {
    match e
    case Fork(src, dst) => spaces[dst := if src in spaces then spaces[src] else map[]]
    case Write(d, v, off, b) =>
      if d in spaces && v in spaces[d] && off < |spaces[d][v].bytes|
      then spaces[d := spaces[d][v := UserPage(spaces[d][v].bytes[off := b], true)]]
      else spaces
    case Map(d, first, num, ro) =>
      if d in spaces
      then spaces[d := spaces[d] + map v: nat | v < SMALL_NUM && InRun(first, num, v) :: UserPage(Zeros(), !ro)]
      else spaces
    case RefuseMap(_) => spaces
    case Kernel => spaces
    case Release(d, page) =>
      if d in spaces then spaces[d := map v: nat | v in spaces[d] && !InPage(page, v) :: spaces[d][v]] else spaces
    case Exit(d) => spaces - {d}
  }

  lemma ForkRefines(vm: Vm, wm: Vm, src: nat, dst: nat)
    requires Inv(vm) && Forked(vm, wm, src, dst)
    ensures Inv(wm) && Spaces(wm) == EagerStep(Spaces(vm), Fork(src, dst))
  {
    hide Inv, Forked, View;
    ForkedKeepsInv(vm, wm, src, dst);
    ForkedDirs(vm, wm, src, dst);
    ForkCopies(vm, wm, src, dst);
  }

  lemma ForkedDirs(vm: Vm, wm: Vm, src: nat, dst: nat)
    requires Inv(vm) && Forked(vm, wm, src, dst)
    ensures dst !in vm.dirs && wm.dirs == vm.dirs + {dst}
    ensures src !in vm.dirs ==> View(vm, src) == map[]
  {
    assert PtesOk(vm);
    hide Inv, Grows, FramesFollow, View, PtesOk;
    if src !in vm.dirs { NoEntriesNoView(vm, src); }
  }

  lemma StoreRefines(vm: Vm, wm: Vm, d: nat, v: nat, off: nat, b: int)
    requires Inv(vm) && Stored(vm, wm, d, v, off, b)
    ensures Inv(wm) && Spaces(wm) == EagerStep(Spaces(vm), Write(d, v, off, b))
  {
    hide Inv;
    StoreIsolated(vm, wm, d, v, off, b);
    StoreKeepsInv(vm, wm, d, v, off, b);
  }

  lemma WriteRefines(vm: Vm, wm: Vm, d: nat, v: nat, off: nat, b: int)
    requires Inv(vm) && Wrote(vm, wm, d, v, off, b)
    ensures Inv(wm) && Spaces(wm) == EagerStep(Spaces(vm), Write(d, v, off, b))
  {
    hide Inv, Stored, EagerStep;
    if Stored(vm, wm, d, v, off, b) {
      StoreRefines(vm, wm, d, v, off, b);
    } else {
      var mid :| Resolved(vm, mid, RefAt(vm.ptes, d, v)) && Stored(mid, wm, d, v, off, b);
      ResolveInvisible(vm, mid, RefAt(vm.ptes, d, v));
      StoreRefines(mid, wm, d, v, off, b);
    }
  }

  lemma MapRefines(vm: Vm, wm: Vm, d: nat, first: Page, num: nat, ro: bool)
    requires Inv(vm) && Mapped(vm, wm, d, first, num, ro)
    ensures Inv(wm) && Spaces(wm) == EagerStep(Spaces(vm), Map(d, first, num, ro))
  {
    MappedKeepsInv(vm, wm, d, first, num, ro);
    assert wm.dirs == vm.dirs;
    hide Accounted, HeapOk, OwnersOk, PtesOk, NoDouble, Grows, FramesFollow, MappedFrames, Private, MappedEntries,
         View;
    MapAddsZeros(vm, wm, d, first, num, ro);
  }

  lemma SameEntriesRead(vm: Vm, wm: Vm)
    requires wm.ptes == vm.ptes && wm.mem == vm.mem && wm.dirs == vm.dirs
    ensures Spaces(wm) == Spaces(vm)
  {
    forall k | k in vm.dirs ensures View(wm, k) == View(vm, k) { ViewKept(vm, wm, k); }
  }

  lemma RefuseRefines(vm: Vm, wm: Vm, d: nat)
    requires Inv(vm) && RefusedStep(vm, wm, d)
    ensures Inv(wm) && Spaces(wm) == EagerStep(Spaces(vm), RefuseMap(d))
  {
    RefusedKeepsInv(vm, wm, d);
    hide Inv, Grows, FramesFollow, Spaces, HeapGrown;
    SameEntriesRead(vm, wm);
  }

  lemma KernelRefines(vm: Vm, wm: Vm)
    requires Inv(vm) && KernelMoved(vm, wm)
    ensures Inv(wm) && Spaces(wm) == EagerStep(Spaces(vm), Kernel)
  {
    KernelKeepsInv(vm, wm);
    hide Inv, FramesFollow, Spaces, PagesTaken, OwnersStay;
    SameEntriesRead(vm, wm);
  }

  lemma UnmapRefines(vm: Vm, wm: Vm, d: nat, page: Page)
    requires Inv(vm) && Ref(d, page) in vm.ptes && Unmapped(vm, wm, Ref(d, page))
    ensures Inv(wm) && Spaces(wm) == EagerStep(Spaces(vm), Release(d, page))
  {
    assert PteOk(vm, Ref(d, page));
    UnmappedKeepsInv(vm, wm, Ref(d, page));
    hide Accounted, HeapOk, OwnersOk, PtesOk, NoDouble, FramesFollow, Private, View;
    UnmapRemoves(vm, wm, Ref(d, page));
  }

  lemma ExitRefines(vm: Vm, wm: Vm, d: nat)
    requires Inv(vm) && Exited(vm, wm, d)
    ensures Inv(wm) && Spaces(wm) == EagerStep(Spaces(vm), Exit(d))
  {
    ExitedKeepsInv(vm, wm, d);
    hide Inv, FramesFollow, ExitedHeap;
    forall k | k in wm.dirs ensures View(wm, k) == View(vm, k) { EntriesSharedRead(vm, wm, k, k); }
  }

  /** One call on shared pages refines the same call on separate copies. */
  lemma StepRefines(vm: Vm, e: Event, wm: Vm)
    requires Inv(vm) && Step(vm, e, wm)
    ensures Inv(wm)
    ensures Spaces(wm) == EagerStep(Spaces(vm), e)
  {
    hide Inv, EagerStep, Spaces, Forked, Wrote, Mapped, RefusedStep, KernelMoved, Unmapped, Exited;
    match e
    case Fork(src, dst) => ForkRefines(vm, wm, src, dst);
    case Write(d, v, off, b) => WriteRefines(vm, wm, d, v, off, b);
    case Map(d, first, num, ro) => MapRefines(vm, wm, d, first, num, ro);
    case RefuseMap(d) => RefuseRefines(vm, wm, d);
    case Kernel => KernelRefines(vm, wm);
    case Release(d, page) => UnmapRefines(vm, wm, d, page);
    case Exit(d) => ExitRefines(vm, wm, d);
  }

  lemma NoEntriesNoView(vm: Vm, d: nat)
    requires PtesOk(vm) && d !in vm.dirs
    ensures View(vm, d) == map[]
  {
  }

  ghost predicate IsRun(states: seq<Vm>, events: seq<Event>) {
    && |states| == |events| + 1
    && forall k :: 0 <= k < |events| ==> Step(states[k], events[k], states[k + 1])
  }

  ghost function EagerRun(spaces: map<nat, Space>, events: seq<Event>): map<nat, Space> {
    if events == [] then spaces else EagerStep(EagerRun(spaces, events[..|events| - 1]), events[|events| - 1])
  }

  /** Over every run of the calls each address space reads exactly what it would read if fork had
      copied every page; the invariant, counts included, holds throughout. */
  lemma {:induction false} RunRefines(states: seq<Vm>, events: seq<Event>)
    requires IsRun(states, events) && Inv(states[0])
    ensures Inv(states[|events|])
    ensures Spaces(states[|events|]) == EagerRun(Spaces(states[0]), events)
  {
    hide Inv, Step, Spaces, EagerStep;
    if events != [] {
      var n := |events| - 1;
      RunRefines(states[..n + 1], events[..n]);
      StepRefines(states[n], events[n], states[n + 1]);
    }
  }

  /** The event is a write, a mapping change or the exit of another address space, or a fork. */
  predicate Spares(e: Event, d: nat) {
    match e
    case Fork(_, _) => true
    case Write(dir, _, _, _) => dir != d
    case Map(dir, _, _, _) => dir != d
    case RefuseMap(_) => true
    case Kernel => true
    case Release(dir, _) => dir != d
    case Exit(dir) => dir != d
  }

  lemma SparedStep(vm: Vm, e: Event, wm: Vm, d: nat)
    requires Inv(vm) && Step(vm, e, wm) && d in vm.dirs && Spares(e, d)
    ensures d in wm.dirs && View(wm, d) == View(vm, d)
  {
    StepRefines(vm, e, wm);
    hide Inv, View, Grows, FramesFollow, Wrote, Mapped, RefusedStep, KernelMoved, Unmapped, Exited, EagerStep;
    EagerSpares(Spaces(vm), e, d);
    assert Spaces(wm)[d] == Spaces(vm)[d];
  }

  lemma EagerSpares(spaces: map<nat, Space>, e: Event, d: nat)
    requires Spares(e, d) && d in spaces && (e.Fork? ==> e.dst != d)
    ensures d in EagerStep(spaces, e) && EagerStep(spaces, e)[d] == spaces[d]
  {
  }

  /** A run that spares `d` leaves all it reads alone. */
  lemma {:induction false} OthersInvisible(states: seq<Vm>, events: seq<Event>, d: nat)
    requires IsRun(states, events) && Inv(states[0]) && d in states[0].dirs
    requires forall k :: 0 <= k < |events| ==> Spares(events[k], d)
    ensures d in states[|events|].dirs && View(states[|events|], d) == View(states[0], d)
  {
    hide Inv, Step, Spaces, View, EagerStep;
    if events != [] {
      var n := |events| - 1;
      OthersInvisible(states[..n + 1], events[..n], d);
      RunRefines(states[..n + 1], events[..n]);
      SparedStep(states[n], events[n], states[n + 1], d);
    }
  }

  /** Forking and then dropping the child restores the count of every frame, and the heap. */
  lemma ForkExitRestores(vm: Vm, mid: Vm, wm: Vm, src: nat, dst: nat)
    requires Inv(vm) && Forked(vm, mid, src, dst) && Exited(mid, wm, dst)
    ensures wm.frames == vm.frames && wm.heap == vm.heap && wm.tables == vm.tables && wm.dirs == vm.dirs
  {
    ForkedKeepsInv(vm, mid, src, dst);
    ExitedKeepsInv(mid, wm, dst);
    ForkExitHeld(vm, mid, wm, src, dst);
    ForkExitHeap(vm, mid, wm, src, dst);
    hide Accounted, HeapOk, OwnersOk, PtesOk, NoDouble, Grows, FramesFollow, ExitedHeap, ExitedEntries, Private;
    FramesDetermined(vm, wm);
  }

  lemma ForkExitHeld(vm: Vm, mid: Vm, wm: Vm, src: nat, dst: nat)
    requires PtesOk(vm) && Forked(vm, mid, src, dst) && Exited(mid, wm, dst)
    ensures Held(wm.ptes) == Held(vm.ptes)
  {
    hide Inv, Grows, FramesFollow, ExitedHeap;
    forall r: Ref
      ensures r in wm.ptes <==> r in vm.ptes
      ensures r in vm.ptes ==> wm.ptes[r].frame == vm.ptes[r].frame
    {
      if r in vm.ptes { assert PteOk(vm, r); }
      assert r == Ref(r.dir, r.page);
    }
  }

  lemma ForkExitHeap(vm: Vm, mid: Vm, wm: Vm, src: nat, dst: nat)
    requires OwnersOk(vm) && Forked(vm, mid, src, dst) && Exited(mid, wm, dst)
    ensures wm.heap == vm.heap && wm.tables == vm.tables
  {
    hide FramesFollow, PagesTaken, TablesPlaced, ExitedEntries;
  }
}
