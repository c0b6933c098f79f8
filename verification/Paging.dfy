/** The calls of src/mm/paging.c as methods that update the frame table, the kernel heap and the
    page tables in place.  Each is proved to make one of the steps of CopyOnWrite. */
module Paging {
  import opened FrameTable
  import opened Holders
  import opened AddressSpaces
  import opened Accounts
  import opened CopyOnWrite
  import opened CallEffects
  import opened Supply
  import opened UserMaps
  import opened DirectoryWalks

  /** How a call ended; `Panic` is a halt of the kernel. */
  datatype Outcome = Done | Null | Panic

  /** Does the run of 4 KiB pages cross into another directory entry?  The sum wraps at 4 GiB. */
  function Crosses(page: nat, num: nat): bool {
    page / ENTRIES != (page + num) % SMALL_NUM / ENTRIES
  }

  /** The run reaches the end of its page table. */
  predicate ReachesEnd(page: nat, num: nat) {
    page % ENTRIES + num >= ENTRIES
  }

  lemma WrappedSum(page: nat, num: nat)
    requires page < SMALL_NUM
    ensures var n := num % SMALL_NUM;
      (page + num) % SMALL_NUM == if page + n < SMALL_NUM then page + n else page + n - SMALL_NUM
  {
  }

  /** In terms of the place in the page table and the number of pages modulo 4 GiB. */
  lemma CrossesExactly(page: nat, num: nat)
    requires page < SMALL_NUM
    ensures Crosses(page, num) <==>
      ENTRIES - page % ENTRIES <= num % SMALL_NUM < SMALL_NUM - page % ENTRIES
  {
    WrappedSum(page, num);
    var n, start := num % SMALL_NUM, page - page % ENTRIES;
    var sum := if page + n < SMALL_NUM then page + n else page + n - SMALL_NUM;
    assert start == page / ENTRIES * ENTRIES;
    assert sum / ENTRIES == page / ENTRIES <==> start <= sum < start + ENTRIES;
  }

  /** The test refuses exactly the runs that reach the end of their page table (so the last page of a
      table is always refused), unless the run goes around the address space and back into it. */
  lemma CrossesMeans(page: nat, num: nat)
    requires page < SMALL_NUM
    ensures (Crosses(page, num) <==> ReachesEnd(page, num)) <==>
      !ReachesEnd(page, num) || ENTRIES - page % ENTRIES <= num % SMALL_NUM < SMALL_NUM - page % ENTRIES
    ensures num <= SMALL_NUM ==>
      ((Crosses(page, num) <==> ReachesEnd(page, num)) <==> num < SMALL_NUM - page % ENTRIES)
  {
    CrossesExactly(page, num);
    hide Crosses;
    var index := page % ENTRIES;
    if num < SMALL_NUM { assert num % SMALL_NUM == num; }
  }

  /** For instance 4 GiB from the usual start of a program on, a size the loader may ask for. */
  lemma WholeSpacePasses()
    ensures !Crosses(0x8048, 0x10_0000) && ReachesEnd(0x8048, 0x10_0000)
  {
  }

  /** A run that the test lets pass although it leaves its page table. */
  predicate Overlong(page: nat, num: nat) {
    !Crosses(page, num) && ReachesEnd(page, num)
  }

  /** Memory with the pages of frame g overwritten by those of frame f. */
  function CopyFrame(mem: seq<Bytes>, f: nat, g: nat): (m: seq<Bytes>)
    requires f < LARGE_NUM <==> g < LARGE_NUM
    requires f < SMALL_NUM && |mem| == SMALL_NUM
    ensures |m| == |mem|
  {
    seq(|mem|, p requires 0 <= p < |mem| =>
      if Covers(g, p) then mem[PhysicalPage(f, p - PhysicalPage(g, 0))] else mem[p])
  }

  class Pager {
    const frames: FrameDirectory
    ghost const offline: set<nat>
    var heap: map<nat, nat>
    ghost var dirs: set<nat>
    var tables: map<TableRef, nat>
    var ptes: map<Ref, Pte>
    var mem: seq<Bytes>
    var current: nat
    ghost var hand: set<nat>

    ghost function Abs(): Vm
      reads this, frames.entries
    {
      Vm(frames.entries[..], offline, heap, dirs, tables, ptes, hand, mem)
    }

    ghost predicate Valid()
      reads this, frames, frames.entries
    {
      && frames.Valid()
      && Core(Abs())
      && (current in dirs || current == INIT_DIRECTORY)
    }

    /** Boot: nothing is mapped, and all calls may start from here. */
    constructor (regions: seq<Region>)
      requires forall k :: 0 <= k < |regions| ==> WordSized(regions[k])
      ensures Valid() && Inv(Abs()) && dirs == {} && heap == map[] && ptes == map[]
      ensures frames.Table() == InitialTable(regions)
    {
      frames := new FrameDirectory();
      offline := set f | NUM_PREALLOCATED <= f < SMALL_NUM && InitialEntry(regions, f) == UNAVAILABLE;
      heap, dirs, tables, ptes, hand, current := map[], {}, map[], map[], {}, INIT_DIRECTORY;
      mem := seq(SMALL_NUM, _ => Zeros());
      new;
      frames.Init(regions);
      InitialTableGood(regions);
      assert Held(ptes) == map[];
      forall f | 0 <= f < SMALL_NUM ensures frames.entries[f] == Expected(Abs(), f) {
        CountZero(Held(ptes), f);
      }
    }

    // ---- The kernel heap ---------------------------------------------------------------------

    /** request_pages for kernel memory, page number `h` of the heap on. */
    method RequestKernel(h: nat, num: nat, consecutive: bool) returns (ok: bool)
      requires Valid() && h + num <= HEAP_PAGES
      modifies this`heap, frames.entries
      ensures Valid()
      ensures !ok ==> Abs() == old(Abs())
      ensures ok ==> HeapMapped(old(Abs()), Abs(), h, num)
      ensures ok <==>
        && (forall k :: h <= k < h + num ==> k !in old(heap))
        && if consecutive then FirstRun(old(frames.Table()), num, LARGE_NUM) != 0 else num <= Spare(old(Abs()), false)
      ensures ok && consecutive ==> forall k :: h <= k < h + num ==> heap[k] == heap[h] + (k - h)
      ensures ok && old(Inv(Abs())) ==> Step(old(Abs()), Kernel, Abs())
    {
      hide Inv, Step, Spare;
      ghost var vm := Abs();
      for offset := 0 to num
        invariant forall k :: h <= k < h + offset ==> k !in heap
      {
        if h + offset in heap {
          return false;
        }
      }
      if consecutive {
        ok := MapRun(h, num);
      } else {
        ok := MapEach(h, num);
      }
      if ok && Inv(vm) { KernelPagesTaken(vm, Abs(), h, num); }
    }

    method MapEach(h: nat, num: nat) returns (ok: bool)
      requires Valid() && h + num <= HEAP_PAGES
      requires forall k :: h <= k < h + num ==> k !in heap
      modifies this`heap, frames.entries
      ensures Valid()
      ensures ok <==> num <= Spare(old(Abs()), false)
      ensures !ok ==> Abs() == old(Abs())
      ensures ok ==> HeapMapped(old(Abs()), Abs(), h, num)
    {
      hide Core, TakeHeapPage, HeapMapped, Spare;
      ghost var before := Abs();
      NothingTaken(before, h);
      ok := true;
      var offset := 0;
      while offset < num && ok
        invariant 0 <= offset <= num && Valid()
        invariant HeapMapped(before, Abs(), h, offset) && Spare(Abs(), false) + offset == Spare(before, false)
        invariant !ok ==> offset < num && Spare(Abs(), false) == 0
        decreases num - offset, ok
      {
        ghost var vm := Abs();
        NextUnmapped(before, vm, h, offset, num);
        ok := TakeOne(h + offset);
        if ok {
          MappedOneMore(before, vm, h, offset, heap[h + offset]);
          offset := offset + 1;
        }
      }
      if !ok {
        ghost var mid := Abs();
        OwnersBefore(before, mid, h, offset);
        FreeKernel(h, offset);
        HeapUndone(before, mid, Abs(), h, offset);
      }
    }

    method TakeOne(h: nat) returns (ok: bool)
      requires Valid() && h < HEAP_PAGES && h !in heap
      modifies this`heap, frames.entries
      ensures Valid()
      ensures ok <==> Spare(old(Abs()), false) > 0
      ensures !ok ==> Abs() == old(Abs())
      ensures ok ==> Spare(Abs(), false) + 1 == Spare(old(Abs()), false)
      ensures ok ==> h in heap && LARGE_NUM <= heap[h] < SMALL_NUM && old(Abs()).frames[heap[h]] == UNUSED
      ensures ok ==> Abs() == TakeHeapPage(old(Abs()), h, heap[h])
    {
      hide Core, Spare;
      ghost var vm := Abs();
      ChosenIsFirstFit(vm.frames, false);
      NoneSpare(vm, false);
      var f := frames.Alloc(false, false);
      if f == 0 {
        return false;
      }
      heap := heap[h := f];
      FrameSpent(vm, Abs(), f, false, KERNEL);
      TakeHeapPageKeepsCore(vm, h, f);
      ok := true;
    }

    method MapRun(h: nat, num: nat) returns (ok: bool)
      requires Valid() && h + num <= HEAP_PAGES
      requires forall k :: h <= k < h + num ==> k !in heap
      modifies this`heap, frames.entries
      ensures Valid()
      ensures ok <==> FirstRun(old(frames.Table()), num, LARGE_NUM) != 0
      ensures !ok ==> Abs() == old(Abs())
      ensures ok ==> HeapMapped(old(Abs()), Abs(), h, num)
      ensures ok ==> forall k :: h <= k < h + num ==> heap[k] == heap[h] + (k - h)
    {
      hide Core, HeapMapped;
      ghost var vm := Abs();
      GoodFrames(vm);
      FirstRunIsFirstFit(vm.frames, num);
      var start := frames.AllocRun(num);
      ok := start != 0;
      if ok {
        PlaceRun(h, num, start);
        TakeRunKeepsCore(vm, h, num, start);
        TakeRunMapped(vm, h, num, start);
      }
    }

    method PlaceRun(h: nat, num: nat, start: nat)
      modifies this`heap
      ensures heap == old(heap) + HeapRun(h, num, start)
    {
      var offset := 0;
      while offset < num
        invariant 0 <= offset <= num
        invariant heap == old(heap) + HeapRun(h, offset, start)
      {
        heap := heap[h + offset := start + offset];
        offset := offset + 1;
      }
    }

    /** free_pages for kernel memory: pages that are not present are passed over.  The callers
        give back memory of their own, never a directory or page table in use. */
    method FreeKernel(h: nat, num: nat)
      requires Valid()
      requires Unowned(Abs(), h, num)
      modifies this`heap, frames.entries
      ensures Valid()
      ensures Abs() == old(Abs()).(heap := heap, frames := Abs().frames)
      ensures forall k :: k in heap <==> k in old(heap) && !(h <= k < h + num)
      ensures forall k :: k in heap ==> heap[k] == old(heap)[k]
      ensures old(Inv(Abs())) ==> Step(old(Abs()), Kernel, Abs())
    {
      hide Core, Inv, Step;
      ghost var before := Abs();
      for i := 0 to num
        invariant Valid() && Abs() == before.(heap := heap, frames := Abs().frames)
        invariant forall k :: k in heap <==> k in before.heap && !(h <= k < h + i)
        invariant forall k :: k in heap ==> heap[k] == before.heap[k]
      {
        if h + i in heap {
          ghost var vm := Abs();
          DropHeapPageKeepsCore(vm, h + i);
          var f := heap[h + i];
          HeapFrameInRange(vm, h + i);
          heap := heap - {h + i};
          frames.Free(f, false);
          assert Abs() == DropHeapPage(vm, h + i);
        }
      }
      if Inv(before) { KernelPagesReturned(before, Abs()); }
    }

    /** alloc_pages(1, 0, 0): the first heap page that request_pages grants. */
    method TakeKernelPage() returns (ok: bool, h: nat)
      requires Valid()
      modifies this`heap, frames.entries
      ensures Valid()
      ensures ok <==> KernelSupply(old(Abs())) > 0
      ensures !ok ==> Abs() == old(Abs())
      ensures ok ==> HeapMapped(old(Abs()), Abs(), h, 1) && PageLess(old(Abs()), Abs())
      ensures ok ==> forall k: nat :: k < h ==> k !in FreePages(old(Abs()))
    {
      hide Core, HeapMapped, Spare, FreePages, PageLess;
      ghost var vm := Abs();
      h := 0;
      while h < HEAP_PAGES
        invariant 0 <= h <= HEAP_PAGES && Valid() && Abs() == vm
        invariant Spare(vm, false) == 0 || forall k: nat :: k < h ==> k !in FreePages(vm)
      {
        LastIsCrossing(h);
        NotFree(vm, h);
        if !Crosses(h, 1) {
          ok := RequestKernel(h, 1, false);
          if ok {
            PageTaken(vm, Abs(), h);
            return;
          }
        }
        h := h + 1;
      }
      NoPageLeft(vm);
      ok := false;
    }

    // ---- User pages --------------------------------------------------------------------------

    /** mk_user_table: an empty page table for slot `slot` of directory `d`. */
    method MakeUserTable(d: nat, slot: nat) returns (ok: bool)
      requires Valid() && d in dirs && UserSlot(slot) && SlotEmpty(Abs(), d, slot)
      modifies this`heap, this`tables, frames.entries
      ensures Valid() && Refused(old(Abs()), Abs(), d)
      ensures ok <==> KernelSupply(old(Abs())) > 0
      ensures ok <==> TableRef(d, slot) in tables
      ensures !ok ==> Abs() == old(Abs())
      ensures ok ==> TableMade(old(Abs()), Abs(), TableRef(d, slot)) && PageLess(old(Abs()), Abs())
      ensures forall t :: t != TableRef(d, slot) ==> (t in tables <==> t in old(tables))
    {
      hide Core, KernelSupply, Spare;
      ghost var vm := Abs();
      var h;
      ok, h := TakeKernelPage();
      if ok {
        ghost var mid := Abs();
        FreshPageUnowned(vm, mid, h);
        AddTableKeepsCore(mid, d, slot, h);
        tables := tables[TableRef(d, slot) := h];
        TableGrown(vm, mid, Abs(), d, slot, h);
        TableIsOnly(vm, mid, Abs(), d, slot, h);
        SameSupply(mid, Abs());
      }
    }

    /** One turn of a mapping loop: a frame is allocated and stored in a free entry. */
    method MapOne(r: Ref, rw: bool) returns (ok: bool)
      requires Valid() && Placeable(Abs(), r)
      modifies this`ptes, frames.entries
      ensures Valid()
      ensures ok <==> Spare(old(Abs()), r.page.Huge?) > 0
      ensures !ok ==> Abs() == old(Abs())
      ensures ok ==> MappedOne(old(Abs()), Abs(), r, rw)
      ensures ok ==> Spare(Abs(), r.page.Huge?) + 1 == Spare(old(Abs()), r.page.Huge?)
    {
      hide Core, Spare;
      ghost var vm := Abs();
      ChosenIsFirstFit(vm.frames, r.page.Huge?);
      NoneSpare(vm, r.page.Huge?);
      var f := frames.Alloc(r.page.Huge?, true);
      ok := f != 0;
      if ok {
        ptes := ptes[r := Pte(f, rw, false)];
        MappedOneKeepsCore(vm, Abs(), r, rw);
        FrameSpent(vm, Abs(), f, r.page.Huge?, 1);
      }
    }

    /** The mapping loops of request_pages and what they undo when a frame is missing. */
    method MapPages(first: Page, num: nat, rw: bool) returns (ok: bool)
      requires Valid()
      requires forall p :: InExtent(first, num, p) ==> Placeable(Abs(), Ref(current, p))
      modifies this`ptes, frames.entries
      ensures Valid()
      ensures ok <==> num <= Spare(old(Abs()), first.Huge?)
      ensures !ok ==> Abs() == old(Abs())
      ensures ok ==> RunMapped(old(Abs()), Abs(), current, first, num, rw)
      ensures forall x :: Private(old(Abs()), x) ==> Private(Abs(), x)
    {
      hide Core, Private, Placeable, Spare, Acceptable, RunMapped;
      ghost var before := Abs();
      NoRunTaken(before, current, first, rw);
      ok := true;
      var k := 0;
      while k < num && ok
        invariant 0 <= k <= num && Valid()
        invariant RunMapped(before, Abs(), current, first, k, rw)
        invariant Spare(Abs(), first.Huge?) + k == Spare(before, first.Huge?)
        invariant forall x :: Private(before, x) ==> Private(Abs(), x)
        invariant !ok ==> k < num && Spare(Abs(), first.Huge?) == 0
        decreases num - k, ok
      {
        ghost var vm := Abs();
        StillPlaceable(before, vm, current, first, num, k, rw);
        ok := MapOne(Ref(current, Shift(first, k)), rw);
        if ok {
          OneMore(before, vm, Abs(), current, first, k, rw);
          k := k + 1;
        }
      }
      if !ok {
        ghost var mid := Abs();
        UnmapPages(first, k);
        PagesUndone(before, mid, Abs(), current, first, k, rw);
      }
    }

    /** free_one_page on a mapped user page. */
    method UnmapOne(r: Ref)
      requires Valid() && r in ptes
      modifies this`ptes, frames.entries
      ensures Valid()
      ensures old(ptes[r].frame) < SMALL_NUM && Abs() == Unmap(old(Abs()), r)
    {
      hide Core;
      ghost var vm := Abs();
      MappedFrameCounted(vm, r);
      UnmapKeepsCore(vm, r);
      UserFrameNonZero(vm, r);
      var f := ptes[r].frame;
      ptes := ptes - {r};
      frames.Free(f, true);
    }

    method UnmapPages(first: Page, num: nat)
      requires Valid()
      modifies this`ptes, frames.entries
      ensures Valid() && Abs() == old(Abs()).(ptes := ptes, frames := Abs().frames)
      ensures forall r :: r in ptes <==> r in old(ptes) && !(r.dir == current && InExtent(first, num, r.page))
      ensures forall r :: r in ptes ==> ptes[r] == old(ptes)[r]
    {
      hide Core;
      ghost var before := Abs();
      for k := 0 to num
        invariant Valid() && Abs() == before.(ptes := ptes, frames := Abs().frames)
        invariant forall r :: r in ptes <==> r in before.ptes && !(r.dir == current && InExtent(first, k, r.page))
        invariant forall r :: r in ptes ==> ptes[r] == before.ptes[r]
      {
        var r := Ref(current, Shift(first, k));
        if r in ptes {
          UnmapOne(r);
        }
        assert forall q: Ref :: InExtent(first, k + 1, q.page) <==> InExtent(first, k, q.page) || q.page == r.page;
      }
    }

    /** The memset at the end of request_pages. */
    method ZeroPages(first: Page, num: nat)
      requires forall p :: InExtent(first, num, p) ==> Ref(current, p) in ptes
      modifies this`mem
      ensures mem == BlankRun(old(Abs()), current, first, num)
    {
      for k := 0 to num
        invariant mem == BlankRun(old(Abs()), current, first, k)
      {
        var r := Ref(current, Shift(first, k));
        assert InExtent(first, num, r.page);
        mem := Blank(mem, ptes[r].frame);
      }
    }

    predicate SlotPresent(slot: nat)
      reads this
    {
      !UserSlot(slot) || TableRef(current, slot) in tables || Ref(current, Huge(slot)) in ptes
    }

    /** request_pages for 4 MiB user pages.  The entries of the kernel are present, so that a run
        never gets past the end of the directory. */
    method RequestHuge(slot: nat, num: nat, ro: bool) returns (res: Outcome)
      requires Valid() && current in dirs && slot < ENTRIES
      modifies this`ptes, this`mem, frames.entries
      ensures Valid() && res != Panic
      ensures res == Done <==> HugeRunGives(old(Abs()), current, slot, num)
      ensures res == Null ==> Abs() == old(Abs())
      ensures res == Done ==> RequestGranted(old(Abs()), Abs(), current, Huge(slot), num, ro)
      ensures forall x :: Private(old(Abs()), x) ==> Private(Abs(), x)
    {
      ghost var before := Abs();
      hide Core, Private, Spare;
      for k := 0 to num
        invariant forall s: nat :: slot <= s < slot + k ==> !SlotTaken(before, current, s)
      {
        if SlotPresent(slot + k) {
          assert SlotTaken(before, current, slot + k);
          return Null;
        }
      }
      forall p | InExtent(Huge(slot), num, p) ensures Placeable(Abs(), Ref(current, p)) {
        assert !SlotTaken(before, current, p.slot) && p == Huge(p.slot);
      }
      var ok := MapPages(Huge(slot), num, !ro);
      if !ok {
        return Null;
      }
      Zero(before, Huge(slot), num, ro);
      res := Done;
    }

    method Zero(ghost before: Vm, first: Page, num: nat, ro: bool)
      requires Valid() && Core(before) && current in dirs && RunMapped(before, Abs(), current, first, num, !ro)
      modifies this`mem
      ensures Valid() && RequestGranted(before, Abs(), current, first, num, ro)
      ensures forall x :: Private(old(Abs()), x) ==> Private(Abs(), x)
    {
      hide Core;
      ghost var mid := Abs();
      ZeroPages(first, num);
      ZeroedRun(before, mid, Abs(), current, first, num, !ro);
      MemoryKeepsCore(mid, Abs());
    }

    /** request_pages for 4 KiB user pages inside one directory entry. */
    method RequestSmall(slot: nat, index: nat, num: nat, ro: bool) returns (res: Outcome)
      requires Valid() && current in dirs && slot < ENTRIES && index + num <= ENTRIES
      modifies this`heap, this`tables, this`ptes, this`mem, frames.entries
      ensures Valid()
      ensures res == Done <==> RunGives(old(Abs()), current, slot, index, num, 0)
      ensures res == Panic <==> SlotHalts(old(Abs()), current, slot)
      ensures res == Panic ==> Abs() == old(Abs())
      ensures res == Null ==> SmallRefused(old(Abs()), Abs(), current, slot)
      ensures res == Done ==> RequestGranted(old(Abs()), Abs(), current, Small(slot, index), num, ro)
      ensures res == Done ==> OnlyTableGrown(old(Abs()), Abs(), TableRef(current, slot))
      ensures forall x :: Private(old(Abs()), x) ==> Private(Abs(), x)
    {
      ghost var before := Abs();
      hide Core, Private, RequestGranted, OneTableMore, Spare, FreePages;
      NothingRefused(before, current);
      if !UserSlot(slot) {
        return Null;
      }
      if Ref(current, Huge(slot)) in ptes {
        return Panic;  // find_userspace_page_table finds no heap page on a 4 MiB frame
      }
      if TableRef(current, slot) in tables {
        for k := 0 to num
          invariant forall j :: index <= j < index + k ==> Ref(current, Small(slot, j)) !in ptes
        {
          if Ref(current, Small(slot, index + k)) in ptes {
            return Null;
          }
        }
      } else {
        NoTableNoPages(before, current, slot);
        SupplyMeans(before);
        var made := MakeUserTable(current, slot);
        if !made {
          return Null;
        }
        OnlyIsGrown(before, Abs(), TableRef(current, slot));
      }
      res := MapSmall(before, slot, index, num, ro);
    }

    /** request_pages for a run that the test let pass although it leaves its page table: up to the
        end of the table it goes like any other, then it reads or writes what lies behind. */
    method RequestPastTable(slot: nat, index: nat, ro: bool) returns (res: Outcome, overrun: bool)
      requires Valid() && current in dirs && slot < ENTRIES && index < ENTRIES
      modifies this`heap, this`tables, this`ptes, frames.entries
      ensures Valid() && res != Done
      ensures res == Panic <==> SlotHalts(old(Abs()), current, slot)
      ensures res == Panic ==> !overrun && Abs() == old(Abs())
      ensures overrun <==> RunsOut(old(Abs()), current, slot, index)
      ensures !overrun && res == Null ==> SmallRefused(old(Abs()), Abs(), current, slot)
      ensures !overrun ==> forall x :: Private(old(Abs()), x) ==> Private(Abs(), x)
    {
      ghost var before := Abs();
      hide Core, Private, OneTableMore, Spare, FreePages;
      NothingRefused(before, current);
      if !UserSlot(slot) {
        return Null, false;
      }
      if Ref(current, Huge(slot)) in ptes {
        return Panic, false;
      }
      if TableRef(current, slot) in tables {
        for j := index to ENTRIES
          invariant forall i :: index <= i < j ==> Ref(current, Small(slot, i)) !in ptes
        {
          if Ref(current, Small(slot, j)) in ptes {
            return Null, false;
          }
        }
        return Null, true;
      }
      NoTableNoPages(before, current, slot);
      SupplyMeans(before);
      var made := MakeUserTable(current, slot);
      if !made {
        return Null, false;
      }
      ghost var mid := Abs();
      PrivacyIgnoresRefusal(before, mid, current);
      forall p | InExtent(Small(slot, index), ENTRIES - index, p) ensures Placeable(mid, Ref(current, p)) {
        assert p == Small(slot, p.index);
      }
      var ok := MapPages(Small(slot, index), ENTRIES - index, !ro);
      return Null, ok;
    }

    method MapSmall(ghost before: Vm, slot: nat, index: nat, num: nat, ro: bool) returns (res: Outcome)
      requires Valid() && Core(before) && current in dirs && UserSlot(slot) && index + num <= ENTRIES
      requires TableRef(current, slot) in tables && Refused(before, Abs(), current)
      requires forall j :: index <= j < index + num ==> Ref(current, Small(slot, j)) !in ptes
      modifies this`ptes, this`mem, frames.entries
      ensures Valid() && res != Panic && (res == Null ==> Abs() == old(Abs()))
      ensures res == Done <==> num <= Spare(old(Abs()), false)
      ensures res == Done ==> RequestGranted(before, Abs(), current, Small(slot, index), num, ro)
      ensures forall x :: Private(before, x) ==> Private(Abs(), x)
    {
      ghost var mid := Abs();
      hide Core, Private, RequestGranted, Spare;
      PrivacyIgnoresRefusal(before, mid, current);
      forall p | InExtent(Small(slot, index), num, p) ensures Placeable(mid, Ref(current, p)) {
        assert p == Small(slot, p.index);
      }
      var ok := MapPages(Small(slot, index), num, !ro);
      if ok {
        Zero(mid, Small(slot, index), num, ro);
        GrantedAfterRefusal(before, mid, Abs(), current, Small(slot, index), num, ro);
        res := Done;
      } else {
        res := Null;
      }
    }

    /** request_pages for user memory, from the address on.  `overrun` tells that the code leaves the
        page table. */
    method RequestUserPages(address: nat, num: nat, large: bool, ro: bool) returns (res: Outcome, overrun: bool)
      requires Valid() && Inv(Abs()) && current in dirs && address < WORD && num < WORD
      modifies this`heap, this`tables, this`ptes, this`mem, frames.entries
      ensures Valid()
      ensures res == Done ==> Step(old(Abs()), Map(current, PageOf(address, large), num, ro), Abs())
      ensures res == Null && !overrun ==> Step(old(Abs()), RefuseMap(current), Abs())
      ensures res == Null && !overrun ==>
        if large || !Passes(address, num) then Abs() == old(Abs())
        else SmallRefused(old(Abs()), Abs(), current, address / LARGE_SIZE)
      ensures res == Done ==>
        if large then tables == old(tables) && heap == old(heap)
        else OnlyTableGrown(old(Abs()), Abs(), TableRef(current, address / LARGE_SIZE))
      ensures res == Done <==> RequestGives(old(Abs()), current, address, num, large)
      ensures res == Panic ==> Abs() == old(Abs())
      ensures res == Panic <==>
        && !large && Passes(address, num) && SlotHalts(old(Abs()), current, address / LARGE_SIZE)
      ensures overrun ==> res == Null
      ensures overrun <==>
        && !large && address % SMALL_SIZE == 0 && Overlong(address / SMALL_SIZE, num)
        && RunsOut(old(Abs()), current, address / LARGE_SIZE, address / SMALL_SIZE % ENTRIES)
    {
      ghost var before := Abs();
      hide Core, Private, SlotTaken, TableMade, OnlyTableGrown, RunsOut, Refused, RequestGranted, Step,
           RunGives, HugeRunGives, SlotHalts, GetsTable, PageLess;
      res, overrun := Null, false;
      NothingRefused(before, current);
      if large {
        if address % LARGE_SIZE == 0 && num <= ENTRIES {
          res := RequestHuge(address / LARGE_SIZE, num, ro);
          assert heap == before.heap && tables == before.tables;
        }
      } else if address % SMALL_SIZE == 0 && !Crosses(address / SMALL_SIZE, num) {
        var slot, index := address / LARGE_SIZE, address / SMALL_SIZE % ENTRIES;
        if ReachesEnd(address / SMALL_SIZE, num) {
          res, overrun := RequestPastTable(slot, index, ro);
        } else {
          res := RequestSmall(slot, index, num, ro);
        }
      }
      if !overrun { RequestFollows(before, Abs(), current, PageOf(address, large), num, ro, res); }
    }

    /** alloc_pages(1, 0, GFP_USER), or with GFP_LARGE: the first page that request_pages grants. */
    method AllocUserPage(large: bool) returns (res: Outcome, page: Page)
      requires Valid() && current in dirs
      modifies this`heap, this`tables, this`ptes, this`mem, frames.entries
      ensures Valid() && (res == Done ==> page.Huge? == large)
      ensures res == Done ==> RequestGranted(old(Abs()), Abs(), current, page, 1, false)
      ensures res == Done <==> PageToBeHad(old(Abs()), current, large, 0)
      ensures res == Done ==> FoundAt(old(Abs()), current, page)
      ensures res == Panic <==> !large && MeetsHuge(old(Abs()), current) && !PageToBeHad(old(Abs()), current, false, 0)
      ensures res != Done ==> Refused(old(Abs()), Abs(), current)
      ensures large ==> heap == old(heap) && tables == old(tables)
      ensures forall x :: Private(old(Abs()), x) ==> Private(Abs(), x)
    {
      ghost var before := Abs();
      hide Core, Private, RequestGranted, Refused, Spare, SlotGives, SlotEats, SlotHalts, SlotTaken, HugeRunGives,
           MeetsHuge, PageToBeHad, FirstGiving, FirstEntry;
      NothingRefused(before, current);
      page := Huge(0);
      var bigStart := if large then 0 else NUM_PREALLOCATED;
      while bigStart < ENTRIES
        invariant bigStart <= ENTRIES && (!large ==> NUM_PREALLOCATED <= bigStart)
        invariant Valid() && current in dirs && Refused(before, Abs(), current)
        invariant large ==> Abs() == before && forall s: nat :: s < bigStart ==> !HugeRunGives(before, current, s, 1)
        invariant !large ==> Searched(before, Abs(), current, bigStart)
        invariant forall x :: Private(before, x) ==> Private(Abs(), x)
      {
        ghost var mid := Abs();
        if large {
          res := RequestHuge(bigStart, 1, false);
          page := Huge(bigStart);
        } else {
          res, page := AllocInSlot(bigStart);
          SlotTried(before, mid, Abs(), current, bigStart, res == Done, res == Panic);
        }
        if large && res == Done { HugeFound(before, current, bigStart); }
        AfterRefusal(before, mid, Abs(), current, page, res == Done, res != Done);
        if res != Null {
          return;
        }
        bigStart := bigStart + 1;
      }
      if large { NoHugeFound(before, current); } else { AllSearched(before, Abs(), current); }
      res := Null;
    }

    method AllocInSlot(slot: nat) returns (res: Outcome, page: Page)
      requires Valid() && current in dirs && slot < ENTRIES
      modifies this`heap, this`tables, this`ptes, this`mem, frames.entries
      ensures Valid() && page.Small? && current in dirs
      ensures res == Done ==> RequestGranted(old(Abs()), Abs(), current, page, 1, false)
      ensures res != Done ==> Refused(old(Abs()), Abs(), current)
      ensures res == Done <==> SlotGives(old(Abs()), current, slot, 0)
      ensures res == Done ==> page.slot == slot && FirstEntry(old(Abs()), current, slot, page.index)
      ensures res == Panic <==> SlotHalts(old(Abs()), current, slot)
      ensures res == Null ==>
        if SlotEats(old(Abs()), current, slot, 0) then ptes == old(ptes) && Spare(Abs(), false) == 0
        else Abs() == old(Abs())
      ensures forall x :: Private(old(Abs()), x) ==> Private(Abs(), x)
    {
      ghost var before := Abs();
      hide Core, Private, RequestGranted, Refused, Spare, FreePages, RunGives, SlotGives, SlotEats, SlotHalts,
           SlotTaken, TableMade, OnlyTableGrown, GetsTable, FirstEntry;
      NothingRefused(before, current);
      page := Small(slot, 0);
      var start := 0;
      while start < ENTRIES
        invariant 0 <= start <= ENTRIES && page.Small?
        invariant Valid() && current in dirs && Refused(before, Abs(), current)
        invariant SlotSearched(before, Abs(), current, slot, start)
        invariant forall x :: Private(before, x) ==> Private(Abs(), x)
      {
        ghost var mid := Abs();
        LastIsCrossing(slot * ENTRIES + start);
        if !Crosses(slot * ENTRIES + start, 1) {
          page := Small(slot, start);
          res := RequestSmall(slot, start, 1, false);
          EntryTried(before, mid, Abs(), current, slot, start, res);
          NothingRefused(mid, current);
          AfterRefusal(before, mid, Abs(), current, page, res == Done, res != Done);
          if res != Null {
            return;
          }
        }
        start := start + 1;
      }
      SlotSearchedAll(before, Abs(), current, slot);
      res := Null;
    }

    /** free_one_page for user memory.  Asked for a 4 MiB page at a slot with a page table, the code
        takes the 4 KiB page at that address from its table and looks up the 4 MiB frame around its
        frame, which is unused. */
    method FreeUserPage(address: nat, large: bool) returns (res: Outcome)
      requires Valid() && Inv(Abs()) && current in dirs && address < WORD
      modifies this`ptes, frames.entries
      ensures Valid() && res != Null
      ensures res == Panic <==> large && Ref(current, PageOf(address, false)) in old(ptes)
      ensures Ref(current, PageOf(address, large)) in old(ptes) ==>
                res == Done && Step(old(Abs()), Release(current, PageOf(address, large)), Abs())
      ensures Ref(current, PageOf(address, large)) !in old(ptes) ==> Abs() == old(Abs())
    {
      hide Core;
      ghost var vm := Abs();
      var small := Ref(current, PageOf(address, false));
      if large && small in ptes {
        AroundSmallUnused(vm, small);
        if frames.entries[ptes[small].frame / PER_LARGE] == UNUSED {
          return Panic;
        }
      }
      var r := Ref(current, PageOf(address, large));
      if r in ptes {
        UnmapOne(r);
        UnmapPrivate(vm, r, {});
        UnmapFollows(vm, Abs(), r);
      }
      return Done;
    }

    // ---- Fork and exit -----------------------------------------------------------------------

    /** What clone_directory does to one present entry. */
    method ShareOne(src: nat, dst: nat, page: Page)
      requires Valid() && Inv(Abs()) && |dirs| <= MAX_SPACES && CanShare(Abs(), src, dst, page)
      modifies this`ptes, frames.entries
      ensures Valid() && Inv(Abs()) && Shared(old(Abs()), Abs(), src, dst, page)
    {
      ShareKeepsInv(Abs(), src, dst, page);
      assert src != dst && Ref(src, page) in ptes;
      hide Core, CanShare, Inv, Share;
      StoreShared(src, dst, page);
    }

    /** The copy of the entry; if it allows writing, both sides become read-only. */
    method StoreShared(src: nat, dst: nat, page: Page)
      requires frames.Valid() && Ref(src, page) in ptes && src != dst
      requires ptes[Ref(src, page)].frame < SMALL_NUM && frames.Table()[ptes[Ref(src, page)].frame] > 0
      modifies this`ptes, frames.entries
      ensures frames.Valid() && Shared(old(Abs()), Abs(), src, dst, page)
    {
      var e := ptes[Ref(src, page)];
      ptes := ptes[Ref(dst, page) := e];
      if e.rw {
        ptes := ptes[Ref(src, page) := Pte(e.frame, false, true)];
        ptes := ptes[Ref(dst, page) := Pte(e.frame, false, true)];
      }
      frames.Use(e.frame);
      assert ptes == old(ptes)[Ref(src, page) := SharedPte(e)][Ref(dst, page) := SharedPte(e)];
    }

    /** The inner loop of clone_directory over the page table of slot `i`.  Done or Panic: the
        source writes through a null pointer when no page table can be had. */
    method CloneTable(ghost vm: Vm, src: nat, dst: nat, i: nat) returns (res: Outcome)
      requires Valid() && Inv(Abs()) && Inv(vm) && |dirs| <= MAX_SPACES && i < ENTRIES
      requires TableRef(src, i) in tables && Cloning(vm, Abs(), src, dst, i, 0) && Spent(vm, Abs(), src, dst, i, 0)
      modifies this`heap, this`tables, this`ptes, frames.entries
      ensures Valid() && res != Null
      ensures res == Done ==> Inv(Abs()) && |dirs| <= MAX_SPACES && Cloning(vm, Abs(), src, dst, i + 1, 0)
      ensures res == Done ==> Spent(vm, Abs(), src, dst, i + 1, 0)
      ensures res == Panic ==> KernelSupply(vm) < PagesForClone(vm, src)
    {
      hide Core, Private, Cloning, Share, Spent, KernelSupply;
      res := Done;
      var j := 0;
      while j < ENTRIES && res == Done
        invariant 0 <= j <= ENTRIES && Valid() && res != Null
        invariant res == Done ==> Inv(Abs()) && |dirs| <= MAX_SPACES && Spent(vm, Abs(), src, dst, i, j)
        invariant res == Done ==> TableRef(src, i) in tables && Cloning(vm, Abs(), src, dst, i, j)
        invariant res == Panic ==> KernelSupply(vm) < PagesForClone(vm, src)
      {
        if Ref(src, Small(i, j)) in ptes {
          res := ClonePte(vm, src, dst, i, j);
        } else {
          EntrySpendsNothing(vm, Abs(), src, dst, i, j);
          WalkSkipsOne(vm, Abs(), src, dst, i, j);
        }
        j := j + 1;
      }
      if res == Done {
        NextSlotSpent(vm, Abs(), src, dst, i);
        WalkEndsTable(vm, Abs(), src, dst, i);
      }
    }

    method ClonePte(ghost vm: Vm, src: nat, dst: nat, i: nat, j: nat) returns (res: Outcome)
      requires Valid() && Inv(Abs()) && Inv(vm) && |dirs| <= MAX_SPACES && i < ENTRIES && j < ENTRIES
      requires TableRef(src, i) in tables && Cloning(vm, Abs(), src, dst, i, j) && Spent(vm, Abs(), src, dst, i, j)
      requires Ref(src, Small(i, j)) in ptes
      modifies this`heap, this`tables, this`ptes, frames.entries
      ensures Valid() && res != Null
      ensures res == Done ==> Inv(Abs()) && |dirs| <= MAX_SPACES && Spent(vm, Abs(), src, dst, i, j + 1)
      ensures res == Done ==> TableRef(src, i) in tables && Cloning(vm, Abs(), src, dst, i, j + 1)
      ensures res == Panic ==> KernelSupply(vm) < PagesForClone(vm, src)
    {
      hide Core, Private, Cloning, Spent, KernelSupply, Spare;
      ghost var wm := Abs();
      WalkMayAddTable(vm, wm, src, dst, i, j);
      if TableRef(dst, i) !in tables {
        var ok := MakeUserTable(dst, i);
        if !ok {
          ShortOfPages(vm, wm, src, dst, i, j);
          return Panic;
        }
        WalkAddedTable(vm, wm, Abs(), src, dst, i, j);
        PrivacyIgnoresRefusal(wm, Abs(), dst);
      }
      ghost var xm := Abs();
      WalkCanShare(vm, xm, src, dst, i, j, Small(i, j));
      ShareOne(src, dst, Small(i, j));
      CloneShared(vm, xm, src, dst, i, j, Small(i, j));
      SharingTakesNothing(xm, Abs(), src, dst, Small(i, j));
      EntrySpent(vm, wm, xm, Abs(), src, dst, i, j);
      res := Done;
    }

    /** clone_directory.  With `src` the kernel's own directory this is new_directory. */
    method CloneDirectory(src: nat) returns (res: Outcome, dst: nat)
      requires Valid() && Inv(Abs()) && (src in dirs || src == INIT_DIRECTORY) && |dirs| < MAX_SPACES
      modifies this`heap, this`dirs, this`tables, this`ptes, frames.entries
      ensures Valid() && res != Null
      ensures res == Done ==> Step(old(Abs()), Fork(src, dst), Abs())
      ensures res == Panic <==> KernelSupply(old(Abs())) < PagesForClone(old(Abs()), src)
    {
      ghost var vm := Abs();
      hide Core, Private, Cloning, Spent, KernelSupply, Spare;
      var ok;
      ok, dst := TakeKernelPage();
      if !ok {
        return Panic, dst;
      }
      ghost var mid := Abs();
      DirectoryStarts(vm, mid, src, dst);
      DirectorySpends(vm, mid, src, dst);
      dirs := dirs + {dst};
      res := Done;
      var i := 0;
      while i < ENTRIES && res == Done
        invariant 0 <= i <= ENTRIES && Valid() && res != Null
        invariant res == Done ==> Inv(Abs()) && |dirs| <= MAX_SPACES && Cloning(vm, Abs(), src, dst, i, 0)
        invariant res == Done ==> Spent(vm, Abs(), src, dst, i, 0)
        invariant res == Panic ==> KernelSupply(vm) < PagesForClone(vm, src)
      {
        res := CloneSlot(vm, src, dst, i);
        i := i + 1;
      }
      if res == Done {
        WalkEnds(vm, Abs(), src, dst);
        EnoughPages(vm, Abs(), src, dst);
      }
    }

    method CloneSlot(ghost vm: Vm, src: nat, dst: nat, i: nat) returns (res: Outcome)
      requires Valid() && Inv(Abs()) && Inv(vm) && |dirs| <= MAX_SPACES && Cloning(vm, Abs(), src, dst, i, 0)
      requires i < ENTRIES && Spent(vm, Abs(), src, dst, i, 0)
      modifies this`heap, this`tables, this`ptes, frames.entries
      ensures Valid() && res != Null
      ensures res == Done ==> Inv(Abs()) && |dirs| <= MAX_SPACES && Cloning(vm, Abs(), src, dst, i + 1, 0)
      ensures res == Done ==> Spent(vm, Abs(), src, dst, i + 1, 0)
      ensures res == Panic ==> KernelSupply(vm) < PagesForClone(vm, src)
    {
      hide Core, Private, Cloning, Spent, KernelSupply;
      ghost var wm := Abs();
      WalkSlot(vm, wm, src, dst, i);
      if Ref(src, Huge(i)) in ptes {
        WalkCanShare(vm, wm, src, dst, i, 0, Huge(i));
        ShareOne(src, dst, Huge(i));
        CloneShared(vm, wm, src, dst, i, 0, Huge(i));
        SharingTakesNothing(wm, Abs(), src, dst, Huge(i));
        SlotSpendsNothing(vm, wm, Abs(), src, dst, i);
        res := Done;
      } else if TableRef(src, i) in tables {
        res := CloneTable(vm, src, dst, i);
      } else {
        SlotSpendsNothing(vm, wm, wm, src, dst, i);
        res := Done;
      }
    }

    // ---- free_directory ----------------------------------------------------------------------

    /** free_directory(d).  Entries are dropped as their frames are released. */
    method FreeDirectory(d: nat)
      requires Valid() && Inv(Abs()) && d in dirs
      modifies this`current, this`heap, this`dirs, this`tables, this`ptes, frames.entries
      ensures Valid()
      ensures Step(old(Abs()), Exit(d), Abs())
      ensures current == if old(current) == d then INIT_DIRECTORY else old(current)
    {
      ghost var vm := Abs();
      hide Core, Private, Freeing, Exited;
      if current == d {
        current := INIT_DIRECTORY;
      }
      FreeStarts(vm, d);
      var i := 0;
      while i < ENTRIES
        invariant 0 <= i <= ENTRIES && Valid() && Inv(Abs()) && Freeing(vm, Abs(), d, i, 0)
        invariant current == (if old(current) == d then INIT_DIRECTORY else old(current))
      {
        FreeSlot(vm, d, i);
        i := i + 1;
      }
      FreeLast(vm, d);
    }

    method FreeSlot(ghost vm: Vm, d: nat, i: nat)
      requires Valid() && Inv(Abs()) && Inv(vm) && Freeing(vm, Abs(), d, i, 0)
      modifies this`heap, this`tables, this`ptes, frames.entries
      ensures Valid() && Inv(Abs()) && Freeing(vm, Abs(), d, i + 1, 0)
    {
      ghost var wm := Abs();
      hide Core, Private, Freeing;
      if Ref(d, Huge(i)) in ptes {
        FreeHugeStep(vm, wm, d, i);
        UnmapOne(Ref(d, Huge(i)));
        UnmapPrivate(wm, Ref(d, Huge(i)), {});
      } else if TableRef(d, i) in tables {
        FreeTable(vm, d, i);
      } else {
        FreeEmptySlot(vm, wm, d, i);
      }
    }

    method FreeTable(ghost vm: Vm, d: nat, i: nat)
      requires Valid() && Inv(Abs()) && Inv(vm) && Freeing(vm, Abs(), d, i, 0)
      requires TableRef(d, i) in tables && Ref(d, Huge(i)) !in ptes
      modifies this`heap, this`tables, this`ptes, frames.entries
      ensures Valid() && Inv(Abs()) && Freeing(vm, Abs(), d, i + 1, 0)
    {
      hide Core, Private, Freeing;
      var j := 0;
      while j < ENTRIES
        invariant 0 <= j <= ENTRIES && Valid() && Inv(Abs()) && Freeing(vm, Abs(), d, i, j)
        invariant TableRef(d, i) in tables && Ref(d, Huge(i)) !in ptes
      {
        ghost var wm := Abs();
        if Ref(d, Small(i, j)) in ptes {
          FreeSmallStep(vm, wm, d, i, j);
          UnmapOne(Ref(d, Small(i, j)));
          UnmapPrivate(wm, Ref(d, Small(i, j)), {});
        } else {
          FreeSmallSkip(vm, wm, d, i, j);
        }
        j := j + 1;
      }
      DropTable(vm, d, i);
    }

    method DropTable(ghost vm: Vm, d: nat, i: nat)
      requires Valid() && Inv(Abs()) && Inv(vm) && Freeing(vm, Abs(), d, i, ENTRIES)
      requires TableRef(d, i) in tables && Ref(d, Huge(i)) !in ptes
      modifies this`heap, this`tables, frames.entries
      ensures Valid() && Inv(Abs()) && Freeing(vm, Abs(), d, i + 1, 0)
    {
      hide Core, Private, Freeing;
      ghost var wm := Abs();
      TableDropped(vm, wm, d, i);
      var h := tables[TableRef(d, i)];
      tables := tables - {TableRef(d, i)};
      ghost var xm := Abs();
      FreeKernel(h, 1);
      SamePtesPrivate(wm, Abs(), {});
      SlotFreed(vm, wm, Abs(), d, i);
    }

    method FreeLast(ghost vm: Vm, d: nat)
      requires Valid() && Inv(Abs()) && Inv(vm) && d in vm.dirs && Freeing(vm, Abs(), d, ENTRIES, 0)
      requires current != d
      modifies this`heap, this`dirs, frames.entries
      ensures Valid() && Step(vm, Exit(d), Abs())
    {
      hide Core, Private, Freeing, Exited;
      ghost var wm := Abs();
      DirectoryBare(vm, wm, d);
      dirs := dirs - {d};
      FreeKernel(d, 1);
      SamePtesPrivate(wm, Abs(), {});
      DirectoryFreed(vm, wm, Abs(), d);
    }

    // ---- Copy on write -----------------------------------------------------------------------

    /** _clone_cow on the current directory, called by the page-fault handler for a user write to
        virtual page `v`.  Null is the result false, after which the task gets SIGSEGV.  Panic is
        the copy through a null pointer when no temporary page can be had. */
    method CloneCow(v: nat) returns (res: Outcome)
      requires Valid() && Inv(Abs()) && current in dirs && v < SMALL_NUM
      modifies this`heap, this`tables, this`ptes, this`mem, this`hand, frames.entries
      ensures Valid()
      ensures res == Done ==> Resolved(old(Abs()), Abs(), RefAt(old(ptes), current, v))
      ensures !CowFault(old(Abs()), current, v) ==> res == Null && Abs() == old(Abs())
      ensures res == Null && CowFault(old(Abs()), current, v)
              ==> LeftOpen(old(Abs()), Abs(), RefAt(old(ptes), current, v))
      ensures CowFault(old(Abs()), current, v) && !SharedFrame(old(Abs()), RefAt(old(ptes), current, v)) ==> res == Done
      ensures CowFault(old(Abs()), current, v) ==>
        (res == Null <==> !CopyPossible(old(Abs()), RefAt(old(ptes), current, v)))
      ensures res != Panic && CowFault(old(Abs()), current, v) ==>
        (Inv(Abs()) <==> CopyPossible(old(Abs()), RefAt(old(ptes), current, v)))
      ensures res == Panic <==>
        CowFault(old(Abs()), current, v) && CopyHalts(old(Abs()), RefAt(old(ptes), current, v))
    {
      hide Core, Private, WritableIsPrivate, Chosen, PageToBeHad;
      ghost var vm := Abs();
      var r := Ref(current, Huge(v / ENTRIES));
      if r !in ptes {
        r := Ref(current, Small(v / ENTRIES, v % ENTRIES));
        if r !in ptes {
          return Null;
        }
      }
      if ptes[r].rw || !ptes[r].cow {
        return Null;
      }
      OpenKeepsCore(vm, r);
      var frame := ptes[r].frame;
      ptes := ptes[r := Pte(frame, true, false)];
      if frames.entries[frame] > 1 {
        res := CopyPage(vm, r, frame);
      } else {
        OpenedAlone(vm, r);
        res := Done;
      }
    }

    /** The branch of _clone_cow for a frame that others use too. */
    method CopyPage(ghost vm: Vm, r: Ref, frame: nat) returns (res: Outcome)
      requires Inv(vm) && r in vm.ptes && vm.ptes[r].cow && !vm.ptes[r].rw
      requires frame == vm.ptes[r].frame && frame < SMALL_NUM && SharedFrame(vm, r)
      requires Valid() && Abs() == Open(vm, r) && r.dir == current && current in dirs
      modifies this`heap, this`tables, this`ptes, this`mem, this`hand, frames.entries
      ensures Valid()
      ensures res == Done ==> Resolved(vm, Abs(), r) && Inv(Abs()) && CopyPossible(vm, r)
      ensures res == Null ==> LeftOpen(vm, Abs(), r)
      ensures res == Panic ==> CopyPossible(vm, r)
      ensures res == Panic <==> CopyHalts(vm, r)
    {
      hide Core, Private, WritableIsPrivate, RequestGranted, Inv, Resolved, PageToBeHad, MeetsHuge;
      ghost var v1 := Abs();
      OpenPrivate(vm, r);
      ChosenIsFirstFit(v1.frames, r.page.Huge?);
      var f := frames.Alloc(r.page.Huge?, true);
      if f == 0 {
        NotShared(vm, r);
        return Null;
      }
      hand := hand + {f};
      ghost var v2 := Abs();
      FrameInHand(vm, v1, v2, r, f);
      FrameBeside(vm, v2, r, f);
      var temp;
      res, temp := AllocUserPage(r.page.Huge?);
      if res != Done {
        return Panic;
      }
      Relocate(vm, v2, r, f, temp);
    }

    /** The copies through the temporary page, and the release of the old frame and of that page. */
    method Relocate(ghost vm: Vm, ghost v2: Vm, r: Ref, f: nat, temp: Page)
      requires Inv(vm) && CowReady(vm, v2, r, f) && (temp.Huge? <==> r.page.Huge?)
      requires Valid() && r.dir == current && current in dirs
      requires RequestGranted(v2, Abs(), current, temp, 1, false) && Private(Abs(), {r})
      requires SharedFrame(vm, r) && (r.page.Huge? ==> heap == vm.heap)
      modifies this`ptes, this`mem, this`hand, frames.entries
      ensures Valid() && Resolved(vm, Abs(), r) && Inv(Abs())
    {
      hide Core, Private, WritableIsPrivate, RequestGranted, Inv, Resolved, CowReady;
      ghost var v3 := Abs();
      var t := Ref(current, temp);
      TempFacts(vm, v2, v3, r, f, temp);
      var frame := ptes[r].frame;
      mem := CopyFrame(mem, frame, ptes[t].frame);
      mem := CopyFrame(mem, ptes[t].frame, f);
      ghost var v4 := Abs();
      CopiesKeep(v3, v4, r, frame, ptes[t].frame, f);
      RepointKeepsCore(v4, r, f);
      RepointPrivate(v4, r, f);
      Repointed(v4, r, t, f);
      ptes := ptes[r := Pte(f, true, false)];
      hand := hand - {f};
      frames.Free(frame, true);
      ghost var v5 := Abs();
      assert v5 == Repoint(v4, r, f);
      UnmapOne(t);
      UnmapPrivate(v5, t, {});
      CowResolved(vm, v2, v3, v4, Abs(), r, f, t);
    }

    /** A store by user code to byte `off` of virtual page `v`.  The processor stores when the
        entry allows it and otherwise raises the fault; after a fault resolved it tries again. */
    method UserWrite(v: nat, off: nat, b: int) returns (res: Outcome)
      requires Valid() && Inv(Abs()) && current in dirs && v < SMALL_NUM && off < PAGE_BYTES
      modifies this`heap, this`tables, this`ptes, this`mem, this`hand, frames.entries
      ensures Valid()
      ensures res == Done ==> Step(old(Abs()), Write(current, v, off, b), Abs())
      ensures Present(old(Abs()), current, v) && old(ptes)[RefAt(old(ptes), current, v)].rw ==> res == Done
      ensures CowFault(old(Abs()), current, v) && !SharedFrame(old(Abs()), RefAt(old(ptes), current, v)) ==> res == Done
      ensures res == Null && !CowFault(old(Abs()), current, v) ==> Abs() == old(Abs())
      ensures !(Present(old(Abs()), current, v) && old(ptes)[RefAt(old(ptes), current, v)].rw) ==>
        (res == Null <==> !(CowFault(old(Abs()), current, v)
                            && CopyPossible(old(Abs()), RefAt(old(ptes), current, v))))
      ensures res == Panic <==>
        CowFault(old(Abs()), current, v) && CopyHalts(old(Abs()), RefAt(old(ptes), current, v))
    {
      hide Core, Private, Resolved, CopyHalts;
      ghost var vm := Abs();
      var r := RefAt(ptes, current, v);
      if r in ptes && ptes[r].rw {
        Store(v, off, b);
        return Done;
      }
      res := CloneCow(v);
      if res == Done {
        ghost var mid := Abs();
        ResolvedMayStore(vm, mid, current, v);
        Store(v, off, b);
      }
    }

    method Store(v: nat, off: nat, b: int)
      requires Valid() && Inv(Abs()) && v < SMALL_NUM && off < PAGE_BYTES
      requires Present(Abs(), current, v) && ptes[RefAt(ptes, current, v)].rw
      modifies this`mem
      ensures Valid() && Stored(old(Abs()), Abs(), current, v, off, b)
    {
      ghost var vm := Abs();
      TranslateInRange(vm, current, v);
      MemorySized(vm);
      hide Core, Private;
      var e := ptes[RefAt(ptes, current, v)];
      var p := PhysicalPage(e.frame, v % ENTRIES);
      mem := mem[p := mem[p][off := b]];
      StoreKeepsInv(vm, Abs(), current, v, off, b);
    }
  }

  /** None of the heap pages h, ..., h + num - 1 is a directory or page table. */
  ghost predicate Unowned(vm: Vm, h: nat, num: nat) {
    && (forall d :: d in vm.dirs ==> !(h <= d < h + num))
    && (forall t :: t in vm.tables ==> !(h <= vm.tables[t] < h + num))
  }

  /** The heap has grown by the pages h, ..., h + num - 1, on frames that were unused. */
  ghost predicate HeapMapped(vm: Vm, wm: Vm, h: nat, num: nat) {
    && wm == vm.(heap := wm.heap, frames := wm.frames)
    && (forall k :: k in wm.heap <==> k in vm.heap || h <= k < h + num)
    && (forall k :: k in vm.heap ==> wm.heap[k] == vm.heap[k] && !(h <= k < h + num))
    && (forall k :: h <= k < h + num ==> wm.heap[k] < |vm.frames| && vm.frames[wm.heap[k]] == UNUSED)
  }

  lemma KernelPagesTaken(vm: Vm, wm: Vm, h: nat, num: nat)
    requires Inv(vm) && Core(wm) && HeapMapped(vm, wm, h, num)
    ensures Step(vm, Kernel, wm)
  {
    hide Core, Private;
    KernelFollows(vm, wm);
  }

  lemma KernelPagesReturned(vm: Vm, wm: Vm)
    requires Inv(vm) && Core(wm) && wm == vm.(heap := wm.heap, frames := wm.frames)
    requires forall k :: k in wm.heap ==> k in vm.heap && wm.heap[k] == vm.heap[k]
    ensures Step(vm, Kernel, wm)
  {
    hide Core, Private;
    KernelFollows(vm, wm);
  }

  lemma MappedOneMore(before: Vm, vm: Vm, h: nat, offset: nat, f: nat)
    requires Core(before) && Core(vm)
    requires HeapMapped(before, vm, h, offset) && h + offset !in vm.heap
    requires LARGE_NUM <= f < |vm.frames| && vm.frames[f] == UNUSED
    ensures HeapMapped(before, TakeHeapPage(vm, h + offset, f), h, offset + 1)
  {
    assert vm.frames[f] == Expected(vm, f) && before.frames[f] == Expected(before, f);
    assert !HeapFrame(vm.heap, f);
    assert forall k :: k in before.heap ==> vm.heap[k] == before.heap[k] != f;
    assert before.frames[f] == UNUSED && f < |before.frames|;
    hide Core, Mappings, Expected, HeapFrame;
  }

  lemma NothingTaken(vm: Vm, h: nat)
    requires Core(vm)
    ensures HeapMapped(vm, vm, h, 0)
  {
  }

  lemma NextUnmapped(before: Vm, vm: Vm, h: nat, offset: nat, num: nat)
    requires HeapMapped(before, vm, h, offset) && offset < num
    requires forall k :: h <= k < h + num ==> k !in before.heap
    ensures h + offset !in vm.heap
  {
  }

  lemma NoRunTaken(vm: Vm, d: nat, first: Page, rw: bool)
    requires Core(vm)
    ensures RunMapped(vm, vm, d, first, 0, rw)
  {
  }

  lemma OwnersBefore(before: Vm, mid: Vm, h: nat, num: nat)
    requires Core(before) && HeapMapped(before, mid, h, num)
    ensures Unowned(mid, h, num)
  {
  }

  lemma HeapUndone(before: Vm, mid: Vm, wm: Vm, h: nat, num: nat)
    requires Core(before) && Core(wm) && HeapMapped(before, mid, h, num)
    requires wm == mid.(heap := wm.heap, frames := wm.frames)
    requires forall k :: k in wm.heap <==> k in mid.heap && !(h <= k < h + num)
    requires forall k :: k in wm.heap ==> wm.heap[k] == mid.heap[k]
    ensures wm == before
  {
  }

  lemma TakeRunMapped(vm: Vm, h: nat, num: nat, start: nat)
    requires |vm.frames| == SMALL_NUM && RunAcceptable(vm.frames, start, num)
    requires forall k :: h <= k < h + num ==> k !in vm.heap
    ensures HeapMapped(vm, TakeRun(vm, h, num, start), h, num)
    ensures forall k ::
              h <= k < h + num ==> TakeRun(vm, h, num, start).heap[k] == TakeRun(vm, h, num, start).heap[h] + (k - h)
  {
    var wm := TakeRun(vm, h, num, start);
    forall k | h <= k < h + num ensures wm.heap[k] < SMALL_NUM && vm.frames[wm.heap[k]] == UNUSED {
      assert wm.heap[k] == HeapRun(h, num, start)[k] == start + (k - h);
      assert SmallFree(vm.frames, start + (k - h));
    }
  }

  lemma HeapFrameInRange(vm: Vm, h: nat)
    requires Core(vm) && h in vm.heap
    ensures LARGE_NUM <= vm.heap[h] < SMALL_NUM
  {
  }

  lemma GoodFrames(vm: Vm)
    requires Core(vm)
    ensures Good(vm.frames)
  {
  }

  /** request_pages gave what was asked. */
  ghost predicate RequestGranted(vm: Vm, wm: Vm, d: nat, first: Page, num: nat, ro: bool) {
    && wm.offline == vm.offline && wm.hand == vm.hand && d in vm.dirs
    && HeapGrown(vm, wm, d)
    && MappedEntries(vm, wm, d, first, num, ro)
  }

  /** What request_pages for user memory did, as a step of a run. */
  lemma RequestFollows(vm: Vm, wm: Vm, d: nat, first: Page, num: nat, ro: bool, res: Outcome)
    requires Inv(vm) && Core(wm) && Private(wm, {}) && d in vm.dirs
    requires res == Done ==> RequestGranted(vm, wm, d, first, num, ro) && (first.Huge? ==> wm.heap == vm.heap)
    requires res == Null ==> Refused(vm, wm, d)
    ensures res == Done ==> Step(vm, Map(d, first, num, ro), wm)
    ensures res == Null ==> Step(vm, RefuseMap(d), wm)
  {
    hide Core, Private, HeapGrown, MappedEntries;
    if res == Done { MapFollows(vm, wm, d, first, num, ro); }
    if res == Null { RefuseFollows(vm, wm, d); }
  }

  lemma AroundSmallUnused(vm: Vm, r: Ref)
    requires Core(vm) && r in vm.ptes && r.page.Small?
    ensures vm.ptes[r].frame < SMALL_NUM && vm.frames[vm.ptes[r].frame / PER_LARGE] == UNUSED
    ensures Ref(r.dir, Huge(r.page.slot)) !in vm.ptes
  {
    MappedFrameCounted(vm, r);
    assert PteOk(vm, r);
    OnlyOneSize(vm, r);
  }

  lemma FreshPageUnowned(vm: Vm, wm: Vm, h: nat)
    requires Core(vm) && HeapMapped(vm, wm, h, 1)
    ensures h in wm.heap && h !in vm.heap && h !in wm.dirs && forall t :: t in wm.tables ==> wm.tables[t] != h
  {
  }

  /** Nothing has changed but for one page table, in a kernel page that is new as well. */
  ghost predicate TableMade(vm: Vm, wm: Vm, t: TableRef) {
    && t !in vm.tables && t in wm.tables && wm.tables[t] !in vm.heap && wm.tables[t] in wm.heap
    && OneTableMore(vm, wm, t, wm.tables[t], wm.heap[wm.tables[t]])
  }

  ghost predicate OneTableMore(vm: Vm, wm: Vm, t: TableRef, h: nat, f: nat) {
    && f < |vm.frames| && vm.frames[f] == UNUSED
    && wm == vm.(tables := vm.tables[t := h], heap := vm.heap[h := f], frames := vm.frames[f := KERNEL])
  }

  /** The same of the page tables and the heap, where user pages were mapped too. */
  ghost predicate OnlyTableGrown(vm: Vm, wm: Vm, t: TableRef) {
    || (wm.tables == vm.tables && wm.heap == vm.heap)
    || (t !in vm.tables && t in wm.tables && wm.tables[t] !in vm.heap && wm.tables[t] in wm.heap
        && wm.tables == vm.tables[t := wm.tables[t]]
        && wm.heap == vm.heap[wm.tables[t] := wm.heap[wm.tables[t]]])
  }

  lemma TableIsOnly(vm: Vm, mid: Vm, wm: Vm, d: nat, slot: nat, h: nat)
    requires Core(vm) && Core(mid) && HeapMapped(vm, mid, h, 1) && TableRef(d, slot) !in vm.tables
    requires wm == AddTable(mid, d, slot, h)
    ensures TableMade(vm, wm, TableRef(d, slot))
  {
    OnePageTaken(vm, mid, h);
    hide Core, HeapMapped;
  }

  lemma OnePageTaken(vm: Vm, mid: Vm, h: nat)
    requires Core(vm) && Core(mid) && HeapMapped(vm, mid, h, 1)
    ensures h in mid.heap && h !in vm.heap && mid.heap[h] < |vm.frames| && vm.frames[mid.heap[h]] == UNUSED
    ensures mid == vm.(heap := vm.heap[h := mid.heap[h]], frames := vm.frames[mid.heap[h] := KERNEL])
  {
    assert h in mid.heap && h !in vm.heap;
    var f := mid.heap[h];
    assert mid.heap == vm.heap[h := f];
    forall g: nat | g < SMALL_NUM ensures mid.frames[g] == if g == f then KERNEL else vm.frames[g] {
      assert mid.frames[g] == Expected(mid, g) && vm.frames[g] == Expected(vm, g);
      HeapFrameOfOne(vm.heap, h, f, g);
      assert g == f ==> f !in mid.offline;
      hide HeapFrame, Core, Mappings;
    }
    assert |mid.frames| == |vm.frames| == SMALL_NUM;
    hide Core;
  }

  /** There is one kernel page less to be had, and its frame. */
  ghost predicate PageLess(vm: Vm, wm: Vm) {
    KernelSupply(wm) + 1 == KernelSupply(vm) && Spare(wm, false) + 1 == Spare(vm, false)
  }

  lemma PageTaken(vm: Vm, wm: Vm, h: nat)
    requires Core(vm) && Core(wm) && HeapMapped(vm, wm, h, 1) && h < HEAP_PAGES && !LastOfSlot(h)
    ensures PageLess(vm, wm) && KernelSupply(vm) > 0
  {
    OnePageTaken(vm, wm, h);
    GoodFrames(vm);
    GoodFrames(wm);
    HeapFrameInRange(wm, h);
    hide Core, HeapMapped;
    var f := wm.heap[h];
    assert InUse(wm.frames, f) && Acceptable(vm.frames, f, false);
    KernelPageSpent(vm, wm, h, f);
  }

  lemma NotFree(vm: Vm, h: nat)
    ensures h in vm.heap || LastOfSlot(h) ==> h !in FreePages(vm)
  {
  }

  lemma NoPageLeft(vm: Vm)
    requires Spare(vm, false) == 0 || forall h: nat :: h < HEAP_PAGES ==> h !in FreePages(vm)
    ensures KernelSupply(vm) == 0
  {
    if Spare(vm, false) != 0 { assert FreePages(vm) == {}; }
  }

  lemma LastIsCrossing(page: nat)
    requires page < SMALL_NUM
    ensures Crosses(page, 1) <==> LastOfSlot(page)
  {
  }

  /** What a refusal in one page table leaves behind: the table, where one could be made. */
  ghost predicate SmallRefused(vm: Vm, wm: Vm, d: nat, slot: nat) {
    && Refused(vm, wm, d)
    && if GetsTable(vm, d, slot) then TableMade(vm, wm, TableRef(d, slot)) && PageLess(vm, wm) else wm == vm
  }

  lemma OnlyIsGrown(vm: Vm, wm: Vm, t: TableRef)
    requires TableMade(vm, wm, t)
    ensures OnlyTableGrown(vm, wm, t)
  {
  }

  /** One turn of the search through a slot. */
  lemma EntryTried(vm: Vm, mid: Vm, wm: Vm, d: nat, slot: nat, j: nat, res: Outcome)
    requires Core(mid) && SlotSearched(vm, mid, d, slot, j) && j < ENTRIES && !LastOfSlot(j)
    requires res == Done <==> RunGives(mid, d, slot, j, 1, 0)
    requires res == Panic <==> SlotHalts(mid, d, slot)
    requires res == Null ==> SmallRefused(mid, wm, d, slot)
    ensures res == Done ==> SlotGives(vm, d, slot, 0) && !SlotHalts(vm, d, slot) && FirstEntry(vm, d, slot, j)
    ensures res == Panic ==> SlotHalts(vm, d, slot) && !SlotGives(vm, d, slot, 0)
    ensures res == Null ==> SlotSearched(vm, wm, d, slot, j + 1)
  {
    hide Core, KernelSupply, Spare, SlotSearched, RunGives, SlotGives, SlotHalts, GetsTable, TableMade, HeapGrown,
         FirstEntry;
    if TableRef(d, slot) !in mid.tables { NoTableNoPages(mid, d, slot); }
    EntrySearched(vm, mid, wm, d, slot, j, res == Done, res == Panic);
  }

  lemma HugeFound(vm: Vm, d: nat, slot: nat)
    requires slot < ENTRIES && HugeRunGives(vm, d, slot, 1)
    requires forall s: nat :: s < slot ==> !HugeRunGives(vm, d, s, 1)
    ensures PageToBeHad(vm, d, true, 0) && FoundAt(vm, d, Huge(slot))
  {
    assert !SlotTaken(vm, d, slot);
    forall s: nat | s < slot ensures SlotTaken(vm, d, s) { assert !HugeRunGives(vm, d, s, 1); }
  }

  lemma NoHugeFound(vm: Vm, d: nat)
    requires forall s: nat :: s < ENTRIES ==> !HugeRunGives(vm, d, s, 1)
    ensures !PageToBeHad(vm, d, true, 0)
  {
    forall s: nat | s < ENTRIES && 0 < Spare(vm, true) ensures SlotTaken(vm, d, s) {
      assert !HugeRunGives(vm, d, s, 1);
    }
  }

  lemma HeapFrameOfOne(heap: map<nat, nat>, h: nat, f: nat, g: nat)
    requires h !in heap
    ensures HeapFrame(heap[h := f], g) <==> HeapFrame(heap, g) || g == f
  {
    if g == f { assert heap[h := f][h] == f; }
    if HeapFrame(heap, g) {
      var k :| k in heap && heap[k] == g;
      assert heap[h := f][k] == g;
    }
  }

  lemma TableGrown(vm: Vm, mid: Vm, wm: Vm, d: nat, slot: nat, h: nat)
    requires HeapMapped(vm, mid, h, 1) && wm == AddTable(mid, d, slot, h)
    requires TableRef(d, slot) !in vm.tables
    ensures Refused(vm, wm, d)
  {
  }

  lemma StillPlaceable(before: Vm, vm: Vm, d: nat, first: Page, num: nat, k: nat, rw: bool)
    requires RunMapped(before, vm, d, first, k, rw) && k < num
    requires forall p :: InExtent(first, num, p) ==> Placeable(before, Ref(d, p))
    ensures Placeable(vm, Ref(d, Shift(first, k)))
  {
  }

  lemma OneMore(before: Vm, vm: Vm, wm: Vm, d: nat, first: Page, k: nat, rw: bool)
    requires Core(before) && Core(vm)
    requires RunMapped(before, vm, d, first, k, rw) && MappedOne(vm, wm, Ref(d, Shift(first, k)), rw)
    ensures RunMapped(before, wm, d, first, k + 1, rw)
    ensures forall x :: Private(vm, x) ==> Private(wm, x)
  {
    hide Core, OnUnusedFrame;
    RunMappedMore(before, vm, wm, d, first, k, rw);
    forall x | Private(vm, x) ensures Private(wm, x) {
      MappedOnePrivate(vm, wm, Ref(d, Shift(first, k)), rw, x);
    }
  }

  lemma PagesUndone(before: Vm, mid: Vm, wm: Vm, d: nat, first: Page, k: nat, rw: bool)
    requires Core(before) && Core(wm) && RunMapped(before, mid, d, first, k, rw)
    requires wm == mid.(ptes := wm.ptes, frames := wm.frames)
    requires forall r :: r in wm.ptes <==> r in mid.ptes && !(r.dir == d && InExtent(first, k, r.page))
    requires forall r :: r in wm.ptes ==> wm.ptes[r] == mid.ptes[r]
    ensures wm == before
  {
    hide Core;
    assert wm.ptes == before.ptes;
    MappingsRestored(before, wm);
  }

  lemma UserFrameNonZero(vm: Vm, r: Ref)
    requires Core(vm) && r in vm.ptes
    ensures vm.ptes[r].frame > 0
  {
  }

  /** Memory may change at will as far as the core invariant and privacy go. */
  lemma MemoryKeepsCore(vm: Vm, wm: Vm)
    requires Core(vm) && wm == vm.(mem := wm.mem) && MemOk(wm)
    ensures Core(wm)
    ensures forall x :: Private(vm, x) ==> Private(wm, x)
  {
  }

  function PageOf(address: nat, large: bool): Page {
    if large then Huge(address / LARGE_SIZE) else Small(address / LARGE_SIZE, address / SMALL_SIZE % ENTRIES)
  }

  /** The pages of a run, by their addresses. */
  lemma RunByAddress(address: nat, num: nat, large: bool, a: nat)
    requires address % (if large then LARGE_SIZE else SMALL_SIZE) == 0
    requires large || !ReachesEnd(address / SMALL_SIZE, num)
    ensures InRun(PageOf(address, large), num, a / SMALL_SIZE) <==>
              address <= a < address + num * if large then 0x40_0000 else 0x1000
  {
    if large { RunByLarge(address, num, a); } else { RunBySmall(address, num, a); }
  }

  lemma RunByLarge(address: nat, num: nat, a: nat)
    requires address % LARGE_SIZE == 0
    ensures InRun(PageOf(address, true), num, a / SMALL_SIZE) <==> address <= a < address + num * 0x40_0000
  {
    assert a / SMALL_SIZE / ENTRIES == a / LARGE_SIZE;
    assert address == address / LARGE_SIZE * LARGE_SIZE;
  }

  lemma RunBySmall(address: nat, num: nat, a: nat)
    requires address % SMALL_SIZE == 0 && !ReachesEnd(address / SMALL_SIZE, num)
    ensures InRun(PageOf(address, false), num, a / SMALL_SIZE) <==> address <= a < address + num * 0x1000
  {
    var p, v := address / SMALL_SIZE, a / SMALL_SIZE;
    assert address == p * SMALL_SIZE && p / ENTRIES == address / LARGE_SIZE;
    assert p / ENTRIES == v / ENTRIES && p % ENTRIES <= v % ENTRIES < p % ENTRIES + num <==> p <= v < p + num;
  }

  /** Each byte of a range that request_pages granted reads 0 afterwards, and was not there before. */
  lemma GrantedBytesAreZero(vm: Vm, wm: Vm, d: nat, address: nat, num: nat, large: bool, ro: bool, a: nat)
    requires PtesOk(vm) && PtesOk(wm) && MappedEntries(vm, wm, d, PageOf(address, large), num, ro)
    requires address % (if large then LARGE_SIZE else SMALL_SIZE) == 0
    requires large || !ReachesEnd(address / SMALL_SIZE, num)
    requires address <= a < address + num * (if large then 0x40_0000 else 0x1000) && a < WORD
    ensures a / 4096 !in View(vm, d) && a / 4096 in View(wm, d)
    ensures var page := View(wm, d)[a / 4096];
            |page.bytes| == 4096 && page.bytes[a % 4096] == 0 && page.writable == !ro
  {
    RunByAddress(address, num, large, a);
    MapAddsZeros(vm, wm, d, PageOf(address, large), num, ro);
    hide PtesOk, MappedEntries, View, InRun;
  }

  /** Nothing is in the way from page `index` of the slot to the end of its page table. */
  ghost predicate FreeToEnd(vm: Vm, d: nat, slot: nat, index: nat) {
    && UserSlot(slot) && Ref(d, Huge(slot)) !in vm.ptes
    && forall j :: index <= j < ENTRIES ==> Ref(d, Small(slot, j)) !in vm.ptes
  }

  /** Where a run leaves its page table: the code meets nothing that stops it before the end. */
  ghost predicate RunsOut(vm: Vm, d: nat, slot: nat, index: nat) {
    && index < ENTRIES
    && if TableRef(d, slot) in vm.tables then FreeToEnd(vm, d, slot, index)
       else RunGives(vm, d, slot, index, ENTRIES - index, 0)
  }

  /** The run passes the tests on alignment and crossing. */
  predicate Passes(address: nat, num: nat) {
    address % SMALL_SIZE == 0 && !Crosses(address / SMALL_SIZE, num)
  }

  /** What request_pages needs to give what is asked. */
  ghost predicate RequestGives(vm: Vm, d: nat, address: nat, num: nat, large: bool) {
    if large then
      address % LARGE_SIZE == 0 && num <= ENTRIES && HugeRunGives(vm, d, address / LARGE_SIZE, num)
    else
      && Passes(address, num) && !ReachesEnd(address / SMALL_SIZE, num)
      && RunGives(vm, d, address / LARGE_SIZE, address / SMALL_SIZE % ENTRIES, num, 0)
  }

  /** In terms of addresses, 4 KiB pages are granted exactly for an aligned range of user space that ends
      before the last page of its 4 MiB, has nothing mapped, and finds a frame for each page, and one more and
      a kernel page if those 4 MiB have no page table yet. */
  lemma SmallGrantedExactly(vm: Vm, d: nat, address: nat, num: nat)
    requires PtesOk(vm) && address < WORD
    ensures RequestGives(vm, d, address, num, false) <==>
      && address % 0x1000 == 0 && 0x80_0000 <= address < 0xC000_0000
      && address % 0x40_0000 + num * 0x1000 < 0x40_0000
      && (forall v: nat :: v < 0x10_0000 && address <= v * 0x1000 < address + num * 0x1000 ==> !Present(vm, d, v))
      && Ref(d, Huge(address / 0x40_0000)) !in vm.ptes
      && if TableRef(d, address / 0x40_0000) in vm.tables then num <= Spare(vm, false)
         else FreePages(vm) != {} && num < Spare(vm, false)
  {
    hide Spare, FreePages, PtesOk;
    UserSpace(address);
    if address % 0x1000 == 0 {
      SmallFits(address, num);
      if address % 0x40_0000 + num * 0x1000 < 0x40_0000 && Ref(d, Huge(address / 0x40_0000)) !in vm.ptes {
        RangeAbsent(vm, d, address, num);
      }
    }
  }

  lemma SmallFits(address: nat, num: nat)
    requires address % 0x1000 == 0 && address < WORD
    ensures Passes(address, num) && !ReachesEnd(address / SMALL_SIZE, num) <==>
              address % 0x40_0000 + num * 0x1000 < 0x40_0000
  {
    var p := address / SMALL_SIZE;
    assert address == p * SMALL_SIZE && p < SMALL_NUM;
    assert address % 0x40_0000 == p % ENTRIES * 0x1000;
    CrossesMeans(p, num);
    CrossesExactly(p, num);
    hide Crosses;
    if !ReachesEnd(p, num) { assert num % SMALL_NUM == num; }
  }

  lemma RangeAbsent(vm: Vm, d: nat, address: nat, num: nat)
    requires address % 0x1000 == 0 && address < WORD && address % 0x40_0000 + num * 0x1000 < 0x40_0000
    requires Ref(d, Huge(address / 0x40_0000)) !in vm.ptes
    ensures (forall j :: address / SMALL_SIZE % ENTRIES <= j < address / SMALL_SIZE % ENTRIES + num ==>
               Ref(d, Small(address / LARGE_SIZE, j)) !in vm.ptes)
       <==> (forall v: nat :: v < 0x10_0000 && address <= v * 0x1000 < address + num * 0x1000 ==> !Present(vm, d, v))
  {
    var p := address / SMALL_SIZE;
    var slot, index := address / LARGE_SIZE, p % ENTRIES;
    assert address == p * SMALL_SIZE && p == slot * ENTRIES + index && index + num < ENTRIES;
    if forall v: nat :: v < 0x10_0000 && address <= v * 0x1000 < address + num * 0x1000 ==> !Present(vm, d, v) {
      forall j: nat | index <= j < index + num ensures Ref(d, Small(slot, j)) !in vm.ptes {
        var v := slot * ENTRIES + j;
        assert v / ENTRIES == slot && v % ENTRIES == j;
        assert !Present(vm, d, v);
      }
    }
    if forall j :: index <= j < index + num ==> Ref(d, Small(slot, j)) !in vm.ptes {
      forall v: nat | v < 0x10_0000 && address <= v * 0x1000 < address + num * 0x1000 ensures !Present(vm, d, v) {
        assert v / ENTRIES == slot && v % ENTRIES == index + (v - p);
      }
    }
  }

  /** 4 MiB pages are granted exactly for an aligned range of user space of at most 1024 pages in which every
      4 MiB are free, with a frame for each. */
  lemma LargeGrantedExactly(vm: Vm, d: nat, address: nat, num: nat)
    requires address < WORD
    ensures RequestGives(vm, d, address, num, true) <==>
      && address % 0x40_0000 == 0 && num <= 1024 && num <= Spare(vm, true)
      && (num > 0 ==> 0x80_0000 <= address && address + num * 0x40_0000 <= 0xC000_0000)
      && forall s: nat :: address <= s * 0x40_0000 < address + num * 0x40_0000 ==>
           TableRef(d, s) !in vm.tables && Ref(d, Huge(s)) !in vm.ptes
  {
    hide Spare;
    var slot := address / LARGE_SIZE;
    if address % LARGE_SIZE == 0 {
      assert address == slot * LARGE_SIZE;
      LargeRange(vm, d, slot, num);
    }
  }

  lemma LargeRange(vm: Vm, d: nat, slot: nat, num: nat)
    ensures (forall s: nat :: slot <= s < slot + num ==> !SlotTaken(vm, d, s)) <==>
      && (num > 0 ==> 2 <= slot && slot + num <= 768)
      && forall s: nat :: slot * 0x40_0000 <= s * 0x40_0000 < (slot + num) * 0x40_0000 ==>
           TableRef(d, s) !in vm.tables && Ref(d, Huge(s)) !in vm.ptes
  {
    if forall s: nat :: slot <= s < slot + num ==> !SlotTaken(vm, d, s) {
      if num > 0 { assert !SlotTaken(vm, d, slot) && !SlotTaken(vm, d, slot + num - 1); }
      forall s: nat | slot * 0x40_0000 <= s * 0x40_0000 < (slot + num) * 0x40_0000
        ensures TableRef(d, s) !in vm.tables && Ref(d, Huge(s)) !in vm.ptes
      {
        assert !SlotTaken(vm, d, s);
      }
    } else {
      var s: nat :| slot <= s < slot + num && SlotTaken(vm, d, s);
      assert slot * 0x40_0000 <= s * 0x40_0000 < (slot + num) * 0x40_0000;
      assert UserSlot(s) ==> TableRef(d, s) in vm.tables || Ref(d, Huge(s)) in vm.ptes;
    }
  }

  function AddressOf(page: Page): nat {
    match page
    case Huge(slot) => slot * 0x40_0000
    case Small(slot, index) => slot * 0x40_0000 + index * 0x1000
  }

  lemma EntryByAddress(vm: Vm, d: nat, a: nat)
    requires a % 0x1000 == 0 && a < WORD
    ensures RequestGives(vm, d, a, 1, false) <==>
              !LastOfSlot(a / SMALL_SIZE % ENTRIES) &&
              RunGives(vm, d, a / LARGE_SIZE, a / SMALL_SIZE % ENTRIES, 1, 0)
  {
    SmallFits(a, 1);
    assert a == a / SMALL_SIZE * SMALL_SIZE && a % 0x40_0000 == a / SMALL_SIZE % ENTRIES * 0x1000;
    hide RunGives;
  }

  /** alloc_pages finds the lowest page that request_pages would give, 4 KiB pages from 12 MiB on. */
  lemma FoundIsLowest(vm: Vm, d: nat, page: Page)
    requires FoundAt(vm, d, page) && Spare(vm, page.Huge?) > 0
    ensures RequestGives(vm, d, AddressOf(page), 1, page.Huge?) && (page.Small? ==> AddressOf(page) >= 0xC0_0000)
    ensures forall b: nat :: b < AddressOf(page) && (page.Small? ==> b >= 0xC0_0000) ==>
              !RequestGives(vm, d, b, 1, page.Huge?)
  {
    hide Spare, FreePages;
    var a := AddressOf(page);
    if page.Huge? {
      assert a / LARGE_SIZE == page.slot;
      assert HugeRunGives(vm, d, page.slot, 1);
      forall b: nat | b < a ensures !RequestGives(vm, d, b, 1, true) {
        if b % LARGE_SIZE == 0 { assert SlotTaken(vm, d, b / LARGE_SIZE); }
      }
    } else {
      assert a / LARGE_SIZE == page.slot && a / SMALL_SIZE % ENTRIES == page.index;
      EntryByAddress(vm, d, a);
      forall b: nat | 0xC0_0000 <= b < a ensures !RequestGives(vm, d, b, 1, false) {
        if b % 0x1000 == 0 { NotBefore(vm, d, page, b); }
      }
    }
  }

  lemma NotBefore(vm: Vm, d: nat, page: Page, b: nat)
    requires page.Small? && FoundAt(vm, d, page) && 0xC0_0000 <= b < AddressOf(page) && b % 0x1000 == 0
    ensures !RequestGives(vm, d, b, 1, false)
  {
    EntryByAddress(vm, d, b);
    var s, j := b / LARGE_SIZE, b / SMALL_SIZE % ENTRIES;
    assert b == s * 0x40_0000 + j * 0x1000 && j < ENTRIES;
    if s < page.slot {
      assert !SlotGives(vm, d, s, 0);
    }
    hide RunGives, RequestGives;
  }

  /** It finds one whenever request_pages would give one, if no 4 MiB page lies in the way and there is a frame
      for a page table to spare. */
  lemma SearchIsComplete(vm: Vm, d: nat, a: nat, large: bool)
    requires RequestGives(vm, d, a, 1, large) && a < WORD
    requires !large ==> a >= 0xC0_0000 && Spare(vm, false) > 1 && !MeetsHuge(vm, d)
    ensures PageToBeHad(vm, d, large, 0)
  {
    hide Spare, FreePages;
    if large {
      assert !SlotTaken(vm, d, a / LARGE_SIZE);
    } else {
      EntryByAddress(vm, d, a);
      assert SlotGives(vm, d, a / LARGE_SIZE, 0);
      assert FirstGiving(vm, d, a / LARGE_SIZE, 0);
    }
  }

  lemma PrivacyIgnoresRefusal(vm: Vm, wm: Vm, d: nat)
    requires Refused(vm, wm, d)
    ensures forall x :: Private(vm, x) ==> Private(wm, x)
  {
  }

  lemma NoTableNoPages(vm: Vm, d: nat, slot: nat)
    requires Core(vm) && TableRef(d, slot) !in vm.tables
    ensures forall j :: Ref(d, Small(slot, j)) !in vm.ptes
  {
  }

  lemma NothingRefused(vm: Vm, d: nat)
    ensures Refused(vm, vm, d)
  {
  }

  lemma RefusedTwice(vm: Vm, mid: Vm, wm: Vm, d: nat)
    requires Refused(vm, mid, d) && Refused(mid, wm, d)
    ensures Refused(vm, wm, d)
  {
  }

  lemma GrownTwice(vm: Vm, mid: Vm, wm: Vm, d: nat)
    requires HeapGrown(vm, mid, d) && HeapGrown(mid, wm, d) && vm.dirs == mid.dirs
    ensures HeapGrown(vm, wm, d)
  {
  }

  lemma GrantedAfterRefusal(vm: Vm, mid: Vm, wm: Vm, d: nat, first: Page, num: nat, ro: bool)
    requires Core(vm) && Core(mid) && Refused(vm, mid, d) && RequestGranted(mid, wm, d, first, num, ro)
    ensures RequestGranted(vm, wm, d, first, num, ro)
  {
    hide Core, HeapGrown, Refused;
    AllUnusedDespiteGrowth(vm, mid, d);
    RefusedGrew(vm, mid, d);
    GrownTwice(vm, mid, wm, d);
    forall p | InExtent(first, num, p) ensures FreshlyMapped(vm, wm, Ref(d, p), ro) {
      assert FreshlyMapped(mid, wm, Ref(d, p), ro);
    }
  }

  lemma RefusedGrew(vm: Vm, mid: Vm, d: nat)
    requires Refused(vm, mid, d)
    ensures HeapGrown(vm, mid, d)
    ensures mid == vm.(heap := mid.heap, tables := mid.tables, frames := mid.frames)
  {
  }

  lemma AllUnusedDespiteGrowth(vm: Vm, mid: Vm, d: nat)
    requires Core(vm) && Core(mid) && Refused(vm, mid, d)
    ensures |vm.frames| == |mid.frames| == SMALL_NUM
    ensures forall f :: 0 <= f < SMALL_NUM && mid.frames[f] == UNUSED ==> vm.frames[f] == UNUSED
  {
  }

  lemma AfterRefusal(vm: Vm, mid: Vm, wm: Vm, d: nat, page: Page, granted: bool, refused: bool)
    requires Core(vm) && Core(mid) && Refused(vm, mid, d)
    requires granted ==> RequestGranted(mid, wm, d, page, 1, false)
    requires refused ==> Refused(mid, wm, d)
    ensures granted ==> RequestGranted(vm, wm, d, page, 1, false)
    ensures refused ==> Refused(vm, wm, d)
  {
    hide Core, Refused, RequestGranted;
    if granted { GrantedAfterRefusal(vm, mid, wm, d, page, 1, false); }
    if refused { RefusedTwice(vm, mid, wm, d); }
  }

  lemma WalkCanShare(vm: Vm, wm: Vm, src: nat, dst: nat, i: nat, j: nat, p: Page)
    requires Inv(vm) && Cloning(vm, wm, src, dst, i, j)
    requires Ref(src, p) in wm.ptes && p == (if p.Huge? then Huge(i) else Small(i, j))
    requires p.Huge? ==> j == 0
    requires p.Small? ==> TableRef(dst, i) in wm.tables
    ensures CanShare(wm, src, dst, p)
  {
    hide Accounted, HeapOk, OwnersOk, PtesOk, NoDouble, MemOk, HeapGrown;
    CloneCanShare(vm, wm, src, dst, i, j, p);
  }

  lemma WalkSkipsOne(vm: Vm, wm: Vm, src: nat, dst: nat, i: nat, j: nat)
    requires Cloning(vm, wm, src, dst, i, j) && Ref(src, Small(i, j)) !in wm.ptes
    ensures Cloning(vm, wm, src, dst, i, j + 1)
  {
  }

  lemma WalkEndsTable(vm: Vm, wm: Vm, src: nat, dst: nat, i: nat)
    requires Inv(vm) && Cloning(vm, wm, src, dst, i, ENTRIES) && TableRef(src, i) in wm.tables
    ensures Cloning(vm, wm, src, dst, i + 1, 0)
  {
    hide Cloning, Inv, Passed;
    TableWalked(vm, wm, src, dst, i);
    CloneSkips(vm, wm, src, dst, i, ENTRIES, i + 1, 0);
  }

  lemma TableWalked(vm: Vm, wm: Vm, src: nat, dst: nat, i: nat)
    requires Inv(vm) && Cloning(vm, wm, src, dst, i, ENTRIES) && TableRef(src, i) in wm.tables
    ensures forall p :: Ref(src, p) in vm.ptes ==> (Passed(p, i, ENTRIES) <==> Passed(p, i + 1, 0))
  {
  }

  lemma WalkMayAddTable(vm: Vm, wm: Vm, src: nat, dst: nat, i: nat, j: nat)
    requires Inv(vm) && Inv(wm) && Cloning(vm, wm, src, dst, i, j) && Ref(src, Small(i, j)) in wm.ptes
    ensures dst in wm.dirs && UserSlot(i) && Ref(dst, Huge(i)) !in wm.ptes && Ref(src, Small(i, j)) in vm.ptes
  {
    assert PteOk(wm, Ref(src, Small(i, j)));
    hide Inv, HeapGrown;
  }

  lemma WalkAddedTable(vm: Vm, wm: Vm, xm: Vm, src: nat, dst: nat, i: nat, j: nat)
    requires Cloning(vm, wm, src, dst, i, j) && TableRef(src, i) in wm.tables && Refused(wm, xm, dst)
    requires forall t :: t != TableRef(dst, i) ==> (t in xm.tables <==> t in wm.tables)
    ensures Cloning(vm, xm, src, dst, i, j)
  {
  }

  lemma DirectoryStarts(vm: Vm, mid: Vm, src: nat, dst: nat)
    requires Inv(vm) && (src in vm.dirs || src == INIT_DIRECTORY)
    requires Core(mid) && HeapMapped(vm, mid, dst, 1)
    ensures Inv(AddDir(mid, dst)) && Cloning(vm, AddDir(mid, dst), src, dst, 0, 0)
    ensures dst !in vm.dirs
  {
    assert dst < HEAP_PAGES;
    FreshPageUnowned(vm, mid, dst);
    AddDirKeepsCore(mid, dst);
    SamePtesPrivate(vm, AddDir(mid, dst), {});
    hide Accounted, HeapOk, OwnersOk, PtesOk, NoDouble, MemOk, Private;
    CloneStarts(vm, mid, AddDir(mid, dst), src, dst);
  }

  lemma DirectorySpends(vm: Vm, mid: Vm, src: nat, dst: nat)
    requires Core(vm) && HeapMapped(vm, mid, dst, 1) && PageLess(vm, mid) && dst !in vm.dirs
    ensures Spent(vm, AddDir(mid, dst), src, dst, 0, 0)
  {
    hide Accounted, HeapOk, PtesOk, NoDouble, MemOk, Spare, FreePages;
    SameSupply(mid, AddDir(mid, dst));
  }

  lemma EntrySpendsNothing(vm: Vm, wm: Vm, src: nat, dst: nat, i: nat, j: nat)
    requires Cloning(vm, wm, src, dst, i, j) && Spent(vm, wm, src, dst, i, j) && Ref(src, Small(i, j)) !in wm.ptes
    ensures Spent(vm, wm, src, dst, i, j + 1)
  {
    hide KernelSupply, HeapGrown, ClonedTables, TablesUsed;
  }

  lemma SlotSpendsNothing(vm: Vm, wm: Vm, xm: Vm, src: nat, dst: nat, i: nat)
    requires Spent(vm, wm, src, dst, i, 0) && KernelSupply(xm) == KernelSupply(wm) && xm.tables == wm.tables
    requires forall k :: Ref(src, Small(i, k)) !in vm.ptes
    ensures Spent(vm, xm, src, dst, i + 1, 0)
  {
    hide KernelSupply;
    SkippedSlotSpent(vm, xm, src, dst, i);
    NextSlotSpent(vm, xm, src, dst, i);
  }

  /** An entry was copied, into a new table if there was none. */
  lemma EntrySpent(vm: Vm, wm: Vm, xm: Vm, ym: Vm, src: nat, dst: nat, i: nat, j: nat)
    requires Spent(vm, wm, src, dst, i, j) && Ref(src, Small(i, j)) in vm.ptes
    requires TableRef(dst, i) in xm.tables
    requires if TableRef(dst, i) in wm.tables then xm == wm else PageLess(wm, xm)
    requires forall t :: t != TableRef(dst, i) ==> (t in xm.tables <==> t in wm.tables)
    requires ym.tables == xm.tables && KernelSupply(ym) == KernelSupply(xm)
    ensures Spent(vm, ym, src, dst, i, j + 1)
  {
    hide KernelSupply, TablesUsed, Spare;
  }

  lemma SharingTakesNothing(vm: Vm, wm: Vm, src: nat, dst: nat, page: Page)
    requires Core(vm) && Core(wm) && Shared(vm, wm, src, dst, page)
    ensures wm.tables == vm.tables && KernelSupply(wm) == KernelSupply(vm)
  {
    hide Core, KernelSupply, Spare, Mappings;
    MappedFrameCounted(vm, Ref(src, page));
    MappedFrameCounted(wm, Ref(src, page));
    SameSupply(vm, wm);
  }

  /** Where the walk stands at a new slot. */
  lemma WalkSlot(vm: Vm, wm: Vm, src: nat, dst: nat, i: nat)
    requires Inv(vm) && Inv(wm) && Cloning(vm, wm, src, dst, i, 0)
    ensures Ref(src, Huge(i)) in wm.ptes || TableRef(src, i) !in wm.tables ==>
              forall k :: Ref(src, Small(i, k)) !in vm.ptes
    ensures Ref(src, Huge(i)) !in wm.ptes && TableRef(src, i) !in wm.tables ==> Cloning(vm, wm, src, dst, i + 1, 0)
  {
    assert Ref(src, Huge(i)) in wm.ptes <==> Ref(src, Huge(i)) in vm.ptes;
    hide Accounted, HeapOk, NoDouble, MemOk, Private;
    assert TableRef(src, i) !in wm.tables ==> TableRef(src, i) !in vm.tables;
    if Ref(src, Huge(i)) in vm.ptes {
      OnlyOneSize(vm, Ref(src, Huge(i)));
    } else if TableRef(src, i) !in wm.tables {
      NoTableNoPages(vm, src, i);
      EmptySlotSkipped(vm, wm, src, dst, i);
    }
  }

  lemma EmptySlotSkipped(vm: Vm, wm: Vm, src: nat, dst: nat, i: nat)
    requires Cloning(vm, wm, src, dst, i, 0)
    requires Ref(src, Huge(i)) !in vm.ptes && forall k :: Ref(src, Small(i, k)) !in vm.ptes
    ensures Cloning(vm, wm, src, dst, i + 1, 0)
  {
  }

  lemma WalkEnds(vm: Vm, wm: Vm, src: nat, dst: nat)
    requires Inv(vm) && Inv(wm) && Cloning(vm, wm, src, dst, ENTRIES, 0)
    ensures Forked(vm, wm, src, dst)
  {
    hide Inv, Cloning, Forked;
    CloneEnds(vm, wm, src, dst);
  }

  ghost predicate Shared(vm: Vm, wm: Vm, src: nat, dst: nat, page: Page) {
    && Ref(src, page) in vm.ptes && vm.ptes[Ref(src, page)].frame < |vm.frames|
    && wm == Share(vm, src, dst, page)
  }

  lemma ShareKeepsInv(vm: Vm, src: nat, dst: nat, page: Page)
    requires Inv(vm) && |vm.dirs| <= MAX_SPACES && CanShare(vm, src, dst, page)
    ensures vm.ptes[Ref(src, page)].frame < SMALL_NUM && vm.frames[vm.ptes[Ref(src, page)].frame] > 0
    ensures Core(Share(vm, src, dst, page)) && Inv(Share(vm, src, dst, page))
  {
    MappedFrameCounted(vm, Ref(src, page));
    hide Core, CanShare, Private;
    ShareKeepsCore(vm, src, dst, page);
    SharePrivate(vm, src, dst, page);
  }

  lemma FreeStarts(vm: Vm, d: nat)
    requires Inv(vm) && d in vm.dirs
    ensures Freeing(vm, vm, d, 0, 0) && d != INIT_DIRECTORY
  {
  }

  lemma FreeHugeStep(vm: Vm, wm: Vm, d: nat, i: nat)
    requires Inv(vm) && Inv(wm) && Freeing(vm, wm, d, i, 0) && Ref(d, Huge(i)) in wm.ptes
    ensures wm.ptes[Ref(d, Huge(i))].frame < |wm.frames|
    ensures Freeing(vm, Unmap(wm, Ref(d, Huge(i))), d, i + 1, 0)
  {
    MappedFrameCounted(wm, Ref(d, Huge(i)));
    assert PteOk(wm, Ref(d, Huge(i)));
    OnlyOneSize(vm, Ref(d, Huge(i)));
    hide Inv;
    FreeHugeSlot(vm, wm, d, i);
  }

  lemma FreeHugeSlot(vm: Vm, wm: Vm, d: nat, i: nat)
    requires Freeing(vm, wm, d, i, 0) && Ref(d, Huge(i)) in wm.ptes
    requires wm.ptes[Ref(d, Huge(i))].frame < |wm.frames|
    requires TableRef(d, i) !in wm.tables && forall k :: Ref(d, Small(i, k)) !in vm.ptes
    ensures Freeing(vm, Unmap(wm, Ref(d, Huge(i))), d, i + 1, 0)
  {
  }

  lemma FreeEmptySlot(vm: Vm, wm: Vm, d: nat, i: nat)
    requires Inv(vm) && Inv(wm) && Freeing(vm, wm, d, i, 0)
    requires Ref(d, Huge(i)) !in wm.ptes && TableRef(d, i) !in wm.tables
    ensures Freeing(vm, wm, d, i + 1, 0)
  {
    hide Core, Private, Freeing;
    SlotHasNoTable(vm, wm, d, i);
    CorePtes(vm);
    FreeEmptyWalk(vm, wm, d, i);
    assert wm.tables == wm.tables - {TableRef(d, i)};
    FreeNextSlot(vm, wm, wm, d, i);
  }

  lemma CorePtes(vm: Vm)
    requires Core(vm)
    ensures PtesOk(vm)
  {
  }

  lemma SlotHasNoTable(vm: Vm, wm: Vm, d: nat, i: nat)
    requires Inv(vm) && Freeing(vm, wm, d, i, 0) && TableRef(d, i) !in wm.tables
    ensures forall j :: Ref(d, Small(i, j)) !in vm.ptes
  {
  }

  lemma FreeEmptyWalk(vm: Vm, wm: Vm, d: nat, i: nat)
    requires Freeing(vm, wm, d, i, 0) && forall j :: Ref(d, Small(i, j)) !in vm.ptes
    ensures Freeing(vm, wm, d, i, ENTRIES)
  {
  }

  lemma FreeSmallStep(vm: Vm, wm: Vm, d: nat, i: nat, j: nat)
    requires Inv(wm) && Freeing(vm, wm, d, i, j) && Ref(d, Small(i, j)) in wm.ptes
    ensures wm.ptes[Ref(d, Small(i, j))].frame < |wm.frames|
    ensures Freeing(vm, Unmap(wm, Ref(d, Small(i, j))), d, i, j + 1)
  {
  }

  lemma FreeSmallSkip(vm: Vm, wm: Vm, d: nat, i: nat, j: nat)
    requires Freeing(vm, wm, d, i, j) && Ref(d, Small(i, j)) !in wm.ptes
    ensures Freeing(vm, wm, d, i, j + 1)
  {
  }

  /** The emptied table may be given back: nothing needs it. */
  lemma TableDropped(vm: Vm, wm: Vm, d: nat, i: nat)
    requires Inv(vm) && Inv(wm) && Freeing(vm, wm, d, i, ENTRIES) && TableRef(d, i) in wm.tables
    ensures Core(RemoveTable(wm, d, i))
    ensures Unowned(RemoveTable(wm, d, i), wm.tables[TableRef(d, i)], 1)
  {
    hide Core, Private, Freeing, RemoveTable;
    TableEmpty(vm, wm, d, i);
    TableAlone(wm, d, i);
    RemoveTableKeepsCore(wm, d, i);
  }

  lemma TableEmpty(vm: Vm, wm: Vm, d: nat, i: nat)
    requires Core(wm) && Freeing(vm, wm, d, i, ENTRIES)
    ensures forall j :: Ref(d, Small(i, j)) !in wm.ptes
  {
  }

  lemma TableAlone(wm: Vm, d: nat, i: nat)
    requires Core(wm) && TableRef(d, i) in wm.tables
    ensures Unowned(RemoveTable(wm, d, i), wm.tables[TableRef(d, i)], 1)
  {
  }

  lemma SlotFreed(vm: Vm, wm: Vm, xm: Vm, d: nat, i: nat)
    requires Inv(vm) && Freeing(vm, wm, d, i, ENTRIES)
    requires Ref(d, Huge(i)) !in wm.ptes && TableRef(d, i) in wm.tables
    requires xm == wm.(tables := wm.tables - {TableRef(d, i)}, heap := xm.heap, frames := xm.frames)
    requires forall k :: k in xm.heap <==>
               k in wm.heap && !(wm.tables[TableRef(d, i)] <= k < wm.tables[TableRef(d, i)] + 1)
    requires forall k :: k in xm.heap ==> xm.heap[k] == wm.heap[k]
    ensures Freeing(vm, xm, d, i + 1, 0)
  {
    hide Accounted, HeapOk, OwnersOk, PtesOk, NoDouble, MemOk, Private, Freeing;
    FreeNextSlot(vm, wm, xm, d, i);
  }

  /** After the walk nothing hangs under the directory. */
  lemma DirectoryBare(vm: Vm, wm: Vm, d: nat)
    requires Inv(vm) && Inv(wm) && Freeing(vm, wm, d, ENTRIES, 0) && d in vm.dirs
    ensures Core(RemoveDir(wm, d)) && Unowned(RemoveDir(wm, d), d, 1)
  {
    forall r: Ref | r in wm.ptes ensures r.dir != d { assert PteOk(vm, r); }
    forall t | t in wm.tables ensures t.dir != d && wm.tables[t] != d { }
    hide Accounted, HeapOk, OwnersOk, PtesOk, NoDouble, MemOk, Private, Freeing, Core;
    RemoveDirKeepsCore(wm, d);
  }

  lemma DirectoryFreed(vm: Vm, wm: Vm, xm: Vm, d: nat)
    requires Inv(vm) && Inv(xm) && Freeing(vm, wm, d, ENTRIES, 0) && d in vm.dirs
    requires xm == wm.(dirs := wm.dirs - {d}, heap := xm.heap, frames := xm.frames)
    requires forall k :: k in xm.heap <==> k in wm.heap && !(d <= k < d + 1)
    requires forall k :: k in xm.heap ==> xm.heap[k] == wm.heap[k]
    ensures Exited(vm, xm, d)
  {
    assert PtesOk(vm) && OwnersOk(vm);
    hide Core, Private, Inv;
    FreedShape(vm, wm, xm, d);
    hide Freeing, ExitedEntries, ExitedHeap, PtesOk, OwnersOk;
    ExitFollows(vm, xm, d);
  }

  lemma FreedShape(vm: Vm, wm: Vm, xm: Vm, d: nat)
    requires PtesOk(vm) && OwnersOk(vm) && Freeing(vm, wm, d, ENTRIES, 0)
    requires xm == wm.(dirs := wm.dirs - {d}, heap := xm.heap, frames := xm.frames)
    requires forall k :: k in xm.heap <==> k in wm.heap && !(d <= k < d + 1)
    requires forall k :: k in xm.heap ==> xm.heap[k] == wm.heap[k]
    ensures ExitedEntries(vm, xm, d) && ExitedHeap(vm, xm, d)
    ensures xm.mem == vm.mem && xm.offline == vm.offline && xm.hand == vm.hand && xm.dirs == vm.dirs - {d}
  {
  }

  // ---- Copy on write -------------------------------------------------------------------------

  /** The fault is one of copying: the page is present, read-only and marked. */
  ghost predicate CowFault(vm: Vm, d: nat, v: nat) {
    Present(vm, d, v) && var e := vm.ptes[RefAt(vm.ptes, d, v)]; e.cow && !e.rw
  }

  ghost predicate SharedFrame(vm: Vm, r: Ref) {
    r in vm.ptes && Mappings(vm, vm.ptes[r].frame) > 1
  }

  /** The entry already allows writing and is no longer marked. */
  ghost function Open(vm: Vm, r: Ref): Vm
    requires r in vm.ptes
  {
    vm.(ptes := vm.ptes[r := Pte(vm.ptes[r].frame, true, false)])
  }

  /** What a failed copy leaves: an entry that allows writing to a frame still shared. */
  ghost predicate LeftOpen(vm: Vm, wm: Vm, r: Ref) {
    && SharedFrame(vm, r) && |vm.frames| == SMALL_NUM && Chosen(vm.frames, r.page.Huge?) == 0
    && wm == Open(vm, r)
    && !Private(wm, {})
  }

  lemma OpenKeepsCore(vm: Vm, r: Ref)
    requires Inv(vm) && r in vm.ptes
    ensures Core(Open(vm, r))
    ensures vm.ptes[r].frame < SMALL_NUM && (vm.frames[vm.ptes[r].frame] > 1 <==> SharedFrame(vm, r))
  {
    hide Accounted, HeapOk, OwnersOk, PtesOk, NoDouble, MemOk, Private, Mappings;
    MappedFrameCounted(vm, r);
    OpenAccounted(vm, r);
    OpenPlaced(vm, r);
    OpenRest(vm, r);
  }

  lemma OpenRest(vm: Vm, r: Ref)
    requires HeapOk(vm) && OwnersOk(vm) && NoDouble(vm.ptes) && MemOk(vm) && r in vm.ptes
    ensures var wm := Open(vm, r); HeapOk(wm) && OwnersOk(wm) && NoDouble(wm.ptes) && MemOk(wm)
  {
  }

  lemma OpenAccounted(vm: Vm, r: Ref)
    requires Accounted(vm) && r in vm.ptes
    ensures Accounted(Open(vm, r))
  {
    assert Held(Open(vm, r).ptes) == Held(vm.ptes);
    forall f | 0 <= f < SMALL_NUM ensures vm.frames[f] == Expected(Open(vm, r), f) {
      assert vm.frames[f] == Expected(vm, f);
    }
  }

  lemma OpenPlaced(vm: Vm, r: Ref)
    requires PtesOk(vm) && r in vm.ptes
    ensures PtesOk(Open(vm, r))
  {
  }

  lemma OpenPrivate(vm: Vm, r: Ref)
    requires Inv(vm) && r in vm.ptes
    ensures Private(Open(vm, r), {r})
    ensures Mappings(vm, vm.ptes[r].frame) == 1 ==> Private(Open(vm, r), {})
  {
    hide Core;
    var wm := Open(vm, r);
    assert Held(wm.ptes) == Held(vm.ptes);
    forall q | q in wm.ptes && q != r ensures WritableIsPrivate(wm, q) {
      assert WritableIsPrivate(vm, q);
    }
    if Mappings(vm, vm.ptes[r].frame) == 1 { assert WritableIsPrivate(wm, r); }
  }

  /** A frame of one user only needs no copy. */
  lemma OpenedAlone(vm: Vm, r: Ref)
    requires Inv(vm) && r in vm.ptes && vm.ptes[r].cow && !vm.ptes[r].rw && !SharedFrame(vm, r)
    requires Core(Open(vm, r))
    ensures Resolved(vm, Open(vm, r), r) && Inv(Open(vm, r))
  {
    hide Core, Private, MemOk, Mappings, HeapGrown, ResolvedEntry, Resolved;
    MappedFrameCounted(vm, r);
    MemorySized(vm);
    OpenPrivate(vm, r);
    OpenedEntry(vm, r);
    ResolveFollows(vm, Open(vm, r), r);
  }

  lemma OpenedEntry(vm: Vm, r: Ref)
    requires MemOk(vm) && r in vm.ptes && vm.ptes[r].cow && !vm.ptes[r].rw
    ensures HeapGrown(vm, Open(vm, r), r.dir) && ResolvedEntry(vm, Open(vm, r), r)
  {
  }

  /** A writable entry on a shared frame breaks privacy. */
  lemma NotShared(vm: Vm, r: Ref)
    requires SharedFrame(vm, r)
    ensures !Private(Open(vm, r), {})
  {
    var wm := Open(vm, r);
    assert Held(wm.ptes) == Held(vm.ptes);
    assert !WritableIsPrivate(wm, r);
  }

  /** What decides whether a copy-on-write fault keeps the invariant: the frame has one user, or
      another frame can be had.  The source checks it only after the entry allows writing. */
  ghost predicate CopyPossible(vm: Vm, r: Ref) {
    !SharedFrame(vm, r) || (|vm.frames| == SMALL_NUM && Chosen(vm.frames, r.page.Huge?) != 0)
  }

  /** What decides whether the copy halts: beside the new frame no temporary page can be had. */
  ghost predicate CopyHalts(vm: Vm, r: Ref) {
    SharedFrame(vm, r) && CopyPossible(vm, r) && !PageToBeHad(vm, r.dir, r.page.Huge?, 1)
  }

  /** The frame in hand is one frame less for the temporary page. */
  lemma FrameBeside(vm: Vm, v2: Vm, r: Ref, f: nat)
    requires Inv(vm) && CowReady(vm, v2, r, f)
    ensures PageToBeHad(v2, r.dir, r.page.Huge?, 0) <==> PageToBeHad(vm, r.dir, r.page.Huge?, 1)
  {
    GoodFrames(vm);
    hide Core, Spare, Acceptable, Mappings, PageToBeHad;
    FrameSpent(vm, v2, f, r.page.Huge?, 1);
    HadBesideOne(vm, v2, r.dir, r.page.Huge?);
  }

  /** Entry r is open and frame f, in hand, is to replace the one it shares. */
  ghost predicate CowReady(vm: Vm, wm: Vm, r: Ref, f: nat) {
    && r in vm.ptes && vm.ptes[r].cow && !vm.ptes[r].rw && vm.hand == {}
    && |vm.frames| == SMALL_NUM && Acceptable(vm.frames, f, r.page.Huge?)
    && wm == TakeInHand(Open(vm, r), f)
    && Core(wm) && Mappings(wm, f) == 0
  }

  lemma FrameInHand(vm: Vm, v1: Vm, v2: Vm, r: Ref, f: nat)
    requires Inv(vm) && r in vm.ptes && vm.ptes[r].cow && !vm.ptes[r].rw
    requires v1 == Open(vm, r) && Core(v1) && Private(v1, {r}) && Acceptable(v1.frames, f, r.page.Huge?)
    requires v2 == TakeInHand(v1, f)
    ensures Core(v2) && Private(v2, {r}) && CowReady(vm, v2, r, f)
  {
    GoodFrames(vm);
    TakeInHandKeepsCore(v1, f, r.page.Huge?);
    AcceptableIsUnmapped(v1, f, r.page.Huge?);
    hide Core;
    SamePtesPrivate(v1, v2, {r});
  }

  /** The temporary page is mapped beside the entry under way, on a frame of the same size. */
  ghost predicate TempReady(vm: Vm, v3: Vm, r: Ref, f: nat, t: Ref) {
    && r in vm.ptes && t in v3.ptes && t != r && t !in vm.ptes && r in v3.ptes
    && v3.ptes == vm.ptes[r := Pte(vm.ptes[r].frame, true, false)][t := v3.ptes[t]]
    && vm.ptes[r].frame < SMALL_NUM && v3.ptes[t].frame < SMALL_NUM && f < SMALL_NUM
    && (vm.ptes[r].frame < LARGE_NUM <==> r.page.Huge?)
    && (v3.ptes[t].frame < LARGE_NUM <==> r.page.Huge?)
    && (f < LARGE_NUM <==> r.page.Huge?)
    && f in v3.hand && Mappings(v3, f) == 0 && v3.ptes[t].frame != f
    && MemOk(vm) && MemOk(v3)
  }

  lemma TempFacts(vm: Vm, v2: Vm, v3: Vm, r: Ref, f: nat, temp: Page)
    requires Inv(vm) && CowReady(vm, v2, r, f) && Core(v3) && RequestGranted(v2, v3, r.dir, temp, 1, false)
    requires temp.Huge? <==> r.page.Huge?
    ensures TempReady(vm, v3, r, f, Ref(r.dir, temp))
  {
    hide Core, MemOk, RequestGranted, Private, Mappings;
    var t := Ref(r.dir, temp);
    TempEntry(v2, v3, r.dir, temp);
    EntrySized(vm, r);
    EntrySized(v3, t);
    MemorySized(vm);
    MemorySized(v3);
    TempApart(v2, v3, t, f);
  }

  lemma EntrySized(vm: Vm, r: Ref)
    requires Core(vm) && r in vm.ptes
    ensures vm.ptes[r].frame < SMALL_NUM && (vm.ptes[r].frame < LARGE_NUM <==> r.page.Huge?)
  {
  }

  lemma TempApart(v2: Vm, v3: Vm, t: Ref, f: nat)
    requires t in v3.ptes && t !in v2.ptes && v3.ptes == v2.ptes[t := v3.ptes[t]]
    requires v3.ptes[t].frame < |v2.frames| && v2.frames[v3.ptes[t].frame] == UNUSED
    requires f < |v2.frames| && v2.frames[f] == 1 && Mappings(v2, f) == 0
    ensures v3.ptes[t].frame != f && Mappings(v3, f) == 0
  {
    assert Held(v3.ptes) == Held(v2.ptes)[t := v3.ptes[t].frame];
    CountAdd(Held(v2.ptes), t, v3.ptes[t].frame, f);
  }

  lemma TempEntry(v2: Vm, v3: Vm, d: nat, temp: Page)
    requires RequestGranted(v2, v3, d, temp, 1, false)
    ensures var t := Ref(d, temp);
      && t in v3.ptes && t !in v2.ptes && v3.ptes == v2.ptes[t := v3.ptes[t]] && v3.hand == v2.hand
      && v3.ptes[t].frame < |v2.frames| && v2.frames[v3.ptes[t].frame] == UNUSED
  {
  }

  lemma CopyFrameSized(vm: Vm, f: nat, g: nat)
    requires MemOk(vm) && f < SMALL_NUM && (f < LARGE_NUM <==> g < LARGE_NUM)
    ensures MemOk(vm.(mem := CopyFrame(vm.mem, f, g)))
  {
  }

  /** The two copies only touch memory. */
  lemma CopiesKeep(v3: Vm, v4: Vm, r: Ref, frame: nat, t: nat, f: nat)
    requires Core(v3) && MemOk(v3) && Private(v3, {r})
    requires frame < SMALL_NUM && t < SMALL_NUM
    requires (frame < LARGE_NUM <==> t < LARGE_NUM) && (t < LARGE_NUM <==> f < LARGE_NUM)
    requires v4 == v3.(mem := CopyFrame(CopyFrame(v3.mem, frame, t), t, f))
    ensures Core(v4) && Private(v4, {r})
  {
    CopyFrameSized(v3, frame, t);
    CopyFrameSized(v3.(mem := CopyFrame(v3.mem, frame, t)), t, f);
    hide Core, MemOk, Private;
    MemoryKeepsCore(v3, v4);
  }

  lemma Repointed(v4: Vm, r: Ref, t: Ref, f: nat)
    requires Core(v4) && r in v4.ptes && t in v4.ptes && t != r
    ensures 0 < v4.ptes[r].frame < SMALL_NUM && v4.frames[v4.ptes[r].frame] > 0
    ensures t in Repoint(v4, r, f).ptes && Repoint(v4, r, f).ptes[t] == v4.ptes[t]
  {
    MappedFrameCounted(v4, r);
    UserFrameNonZero(v4, r);
  }

  /** All is in place: the faulting entry has a frame of its own with the old bytes. */
  lemma CowResolved(vm: Vm, v2: Vm, v3: Vm, v4: Vm, v6: Vm, r: Ref, f: nat, t: Ref)
    requires Inv(vm) && CowReady(vm, v2, r, f) && t.dir == r.dir && (t.page.Huge? <==> r.page.Huge?)
    requires Core(v3) && RequestGranted(v2, v3, r.dir, t.page, 1, false) && TempReady(vm, v3, r, f, t)
    requires Bounced(v3, v4, vm.ptes[r].frame, v3.ptes[t].frame, f) && Switched(v4, v6, r, f, t)
    requires Core(v6) && Private(v6, {}) && SharedFrame(vm, r) && (r.page.Huge? ==> v6.heap == vm.heap)
    ensures Resolved(vm, v6, r) && Inv(v6)
  {
    hide Core, Private, RequestGranted, CowReady, MappedMemoryKept, Copied, MemOk, TempReady;
    CopiedBytes(vm, v2, v3, v4, r, f, t);
    MemorySized(v6);
    CowHands(vm, v2, v3, v6, r, f, t);
    assert Inv(vm) && Inv(v6);
    hide HeapGrown, Inv;
    CowEntries(vm, v3, v4, v6, r, f, t);
    CowFrame(vm, v2, r, f);
    hide ResolvedEntry, Resolved, Mappings, Bounced, Switched;
    ResolveFollows(vm, v6, r);
  }

  lemma CowFrame(vm: Vm, v2: Vm, r: Ref, f: nat)
    requires Inv(vm) && CowReady(vm, v2, r, f)
    ensures f < |vm.frames| && vm.frames[f] == UNUSED && f != vm.ptes[r].frame
  {
    MappedFrameCounted(vm, r);
    hide Core;
  }

  /** The bytes of frame `from` went to frame `to` by way of frame `via`. */
  ghost predicate Bounced(v3: Vm, v4: Vm, from: nat, via: nat, to: nat) {
    && |v3.mem| == SMALL_NUM && from < SMALL_NUM && via < SMALL_NUM
    && (from < LARGE_NUM <==> via < LARGE_NUM) && (via < LARGE_NUM <==> to < LARGE_NUM)
    && v4 == v3.(mem := CopyFrame(CopyFrame(v3.mem, from, via), via, to))
  }

  /** Entry r was pointed at frame f, then the temporary mapping t was taken away. */
  ghost predicate Switched(v4: Vm, v6: Vm, r: Ref, f: nat, t: Ref) {
    && |v4.frames| == SMALL_NUM && r in v4.ptes && v4.ptes[r].frame < SMALL_NUM && t in Repoint(v4, r, f).ptes
    && Repoint(v4, r, f).ptes[t].frame < SMALL_NUM
    && v6 == Unmap(Repoint(v4, r, f), t)
  }

  lemma CowHands(vm: Vm, v2: Vm, v3: Vm, v6: Vm, r: Ref, f: nat, t: Ref)
    requires CowReady(vm, v2, r, f) && RequestGranted(v2, v3, r.dir, t.page, 1, false)
    requires v6.hand == v3.hand - {f} && v6.heap == v3.heap && v6.tables == v3.tables
    requires v6.dirs == v3.dirs && v6.offline == v3.offline
    ensures v6.hand == {} && HeapGrown(vm, v6, r.dir) && v6.dirs == vm.dirs && v6.offline == vm.offline
    ensures vm.ptes[r].cow && !vm.ptes[r].rw
  {
    hide Core, Acceptable, HeapGrown;
    SameGrowth(vm, v2, v3, v6, r.dir);
  }

  lemma CowEntries(vm: Vm, v3: Vm, v4: Vm, v6: Vm, r: Ref, f: nat, t: Ref)
    requires TempReady(vm, v3, r, f, t) && vm.ptes[r].cow && !vm.ptes[r].rw
    requires v4 == v3.(mem := v4.mem) && |v4.frames| == SMALL_NUM && t in Repoint(v4, r, f).ptes
    requires v6 == Unmap(Repoint(v4, r, f), t) && MemOk(v6) && v6.dirs == vm.dirs
    requires MappedMemoryKept(vm, v4) && Copied(vm.mem, v4.mem, vm.ptes[r].frame, f)
    ensures ResolvedEntry(vm, v6, r) && v6.ptes[r].frame == f
  {
  }

  lemma SameGrowth(vm: Vm, v2: Vm, v3: Vm, v6: Vm, d: nat)
    requires v2.heap == vm.heap && v2.tables == vm.tables && v2.dirs == vm.dirs
    requires v6.heap == v3.heap && v6.tables == v3.tables && HeapGrown(v2, v3, d)
    ensures HeapGrown(vm, v6, d)
  {
  }

  /** Bytes: the new frame reads as the old one did, and no other mapped frame changed. */
  lemma CopiedBytes(vm: Vm, v2: Vm, v3: Vm, v4: Vm, r: Ref, f: nat, t: Ref)
    requires Inv(vm) && CowReady(vm, v2, r, f) && t.dir == r.dir && (t.page.Huge? <==> r.page.Huge?)
    requires Core(v3) && RequestGranted(v2, v3, r.dir, t.page, 1, false) && TempReady(vm, v3, r, f, t)
    requires v4 == v3.(mem := CopyFrame(CopyFrame(v3.mem, vm.ptes[r].frame, v3.ptes[t].frame), v3.ptes[t].frame, f))
    ensures |vm.mem| == |v4.mem| == SMALL_NUM
    ensures MappedMemoryKept(vm, v4) && Copied(vm.mem, v4.mem, vm.ptes[r].frame, f)
  {
    hide Inv, Core, CowReady, RequestGranted;
    var g := v3.ptes[t].frame;
    forall q | q in vm.ptes ensures FrameApart(vm.ptes[q].frame, g, f) && BytesSame(vm, v3, vm.ptes[q].frame) {
      OldFrameApart(vm, v2, v3, r, f, t, q);
    }
    KeptByCopies(vm, v3, v4, vm.ptes[r].frame, g, f);
    CopiedTwice(vm, v3, v4, vm.ptes[r].frame, g, f);
  }

  /** Frame g shares no page with frames t and f. */
  ghost predicate FrameApart(g: nat, t: nat, f: nat) {
    forall p :: Covers(g, p) ==> !Covers(t, p) && !Covers(f, p)
  }

  ghost predicate BytesSame(vm: Vm, wm: Vm, g: nat) {
    forall k :: 0 <= k < PagesOf(g) && PhysicalPage(g, k) < SMALL_NUM ==>
      BytesAt(wm.mem, PhysicalPage(g, k)) == BytesAt(vm.mem, PhysicalPage(g, k))
  }

  lemma OldFrameApart(vm: Vm, v2: Vm, v3: Vm, r: Ref, f: nat, t: Ref, q: Ref)
    requires Inv(vm) && CowReady(vm, v2, r, f) && t.dir == r.dir && q in vm.ptes
    requires Core(v3) && RequestGranted(v2, v3, r.dir, t.page, 1, false) && TempReady(vm, v3, r, f, t)
    ensures FrameApart(vm.ptes[q].frame, v3.ptes[t].frame, f)
    ensures BytesSame(vm, v3, vm.ptes[q].frame)
  {
    hide Core, RequestGranted, Acceptable, Private, Mappings, InUse, Good, MemOk, BytesSame;
    OldBytesThrough(vm, v2, v3, r, f, t, q);
    var g := vm.ptes[q].frame;
    TempEntry(v2, v3, r.dir, t.page);
    MappedFrameCounted(vm, q);
    MappedFrameCounted(v3, q);
    MappedFrameCounted(v3, t);
    AcceptableIsUnmapped(vm, f, r.page.Huge?);
    HandInUse(v3, f);
    GoodFrames(v3);
    assert v2.frames[g] != UNUSED;
    forall p | Covers(g, p) ensures !Covers(v3.ptes[t].frame, p) && !Covers(f, p) {
      FramesInUseAreDisjoint(v3.frames, g, v3.ptes[t].frame, p);
      FramesInUseAreDisjoint(v3.frames, g, f, p);
    }
  }

  lemma HandInUse(vm: Vm, f: nat)
    requires Core(vm) && f in vm.hand
    ensures f < SMALL_NUM && InUse(vm.frames, f)
  {
  }

  lemma OldBytesThrough(vm: Vm, v2: Vm, v3: Vm, r: Ref, f: nat, t: Ref, q: Ref)
    requires CowReady(vm, v2, r, f) && q in vm.ptes && TempReady(vm, v3, r, f, t)
    requires RequestGranted(v2, v3, r.dir, t.page, 1, false)
    ensures BytesSame(vm, v3, vm.ptes[q].frame)
  {
  }

  lemma KeptByCopies(vm: Vm, v3: Vm, v4: Vm, from: nat, t: nat, f: nat)
    requires |vm.mem| == |v3.mem| == SMALL_NUM
    requires forall q :: q in vm.ptes ==> FrameApart(vm.ptes[q].frame, t, f) && BytesSame(vm, v3, vm.ptes[q].frame)
    requires from < SMALL_NUM && t < SMALL_NUM
    requires (from < LARGE_NUM <==> t < LARGE_NUM) && (t < LARGE_NUM <==> f < LARGE_NUM)
    requires v4 == v3.(mem := CopyFrame(CopyFrame(v3.mem, from, t), t, f))
    ensures MappedMemoryKept(vm, v4)
  {
  }

  lemma CopiedTwice(vm: Vm, v3: Vm, v4: Vm, from: nat, t: nat, f: nat)
    requires |vm.mem| == |v3.mem| == SMALL_NUM && BytesSame(vm, v3, from)
    requires from < SMALL_NUM && t < SMALL_NUM
    requires (from < LARGE_NUM <==> t < LARGE_NUM) && (t < LARGE_NUM <==> f < LARGE_NUM)
    requires v4 == v3.(mem := CopyFrame(CopyFrame(v3.mem, from, t), t, f))
    ensures Copied(vm.mem, v4.mem, from, f)
  {
  }

  lemma ResolvedMayStore(vm: Vm, wm: Vm, d: nat, v: nat)
    requires Inv(vm) && Present(vm, d, v) && Resolved(vm, wm, RefAt(vm.ptes, d, v))
    ensures Inv(wm) && Present(wm, d, v) && wm.ptes[RefAt(wm.ptes, d, v)].rw
  {
    ResolvedKeepsInv(vm, wm, RefAt(vm.ptes, d, v));
    hide Inv, Grows, FramesFollow, ResolvedFrame;
  }

  lemma MemorySized(vm: Vm)
    requires Core(vm)
    ensures MemOk(vm)
  {
  }

  /** What goes wrong otherwise: the entry left open lets a store reach a page that another
      address space reads at the same place. */
  lemma LeftOpenIsSeen(vm: Vm, wm: Vm, d: nat, v: nat) returns (e: nat)
    requires Inv(vm) && CowFault(vm, d, v) && LeftOpen(vm, wm, RefAt(vm.ptes, d, v))
    ensures e != d && e in wm.dirs
    ensures Present(wm, d, v) && wm.ptes[RefAt(wm.ptes, d, v)].rw
    ensures exists q :: q in wm.ptes && q.dir == e && wm.ptes[q].frame == wm.ptes[RefAt(wm.ptes, d, v)].frame
  {
    var r := RefAt(vm.ptes, d, v);
    var q := OtherHolder(vm, r);
    e := q.dir;
    assert PteOk(vm, q);
    hide Inv, Mappings;
    assert q in wm.ptes && wm.ptes[q].frame == wm.ptes[r].frame;
    assert RefAt(wm.ptes, d, v) == r;
  }

  lemma OtherHolder(vm: Vm, r: Ref) returns (q: Ref)
    requires Inv(vm) && SharedFrame(vm, r)
    ensures q in vm.ptes && q.dir != r.dir && vm.ptes[q].frame == vm.ptes[r].frame
  {
    var s := Of(Held(vm.ptes), vm.ptes[r].frame);
    assert r in s && |s - {r}| > 0;
    q :| q in s - {r};
  }
}
