/** Facts about runs of user pages, used by the calls that map, zero and unmap them. */
module UserMaps {
  import opened FrameTable
  import opened Holders
  import opened AddressSpaces
  import opened CopyOnWrite

  /** The k-th page after `first`. */
  function Shift(first: Page, k: nat): Page {
    match first
    case Huge(slot) => Huge(slot + k)
    case Small(slot, index) => Small(slot, index + k)
  }

  /** Nothing is mapped at `r`, and something may be. */
  ghost predicate Placeable(vm: Vm, r: Ref) {
    && r !in vm.ptes && r.dir in vm.dirs && UserSlot(r.page.slot)
    && (r.page.Huge? ==> TableRef(r.dir, r.page.slot) !in vm.tables)
    && (r.page.Small? ==> r.page.index < ENTRIES && TableRef(r.dir, r.page.slot) in vm.tables)
  }

  /** One page was mapped on a frame that the allocator accepted. */
  ghost predicate MappedOne(vm: Vm, wm: Vm, r: Ref, rw: bool) {
    && r !in vm.ptes && r in wm.ptes && |vm.frames| == SMALL_NUM
    && var f := wm.ptes[r].frame;
       && Acceptable(vm.frames, f, r.page.Huge?)
       && wm == vm.(ptes := vm.ptes[r := Pte(f, rw, false)], frames := vm.frames[f := 1])
  }

  lemma MappedOneKeepsCore(vm: Vm, wm: Vm, r: Ref, rw: bool)
    requires Core(vm) && MappedOne(vm, wm, r, rw) && Placeable(vm, r)
    ensures Core(wm)
  {
    var f := wm.ptes[r].frame;
    TakeInHandKeepsCore(vm, f, r.page.Huge?);
    AcceptableIsUnmapped(vm, f, r.page.Huge?);
    hide Core;
    PutDownKeepsCore(TakeInHand(vm, f), r, f, rw);
    assert vm.hand + {f} - {f} == vm.hand;
  }

  lemma MappedOnePrivate(vm: Vm, wm: Vm, r: Ref, rw: bool, except: set<Ref>)
    requires Core(vm) && MappedOne(vm, wm, r, rw) && Private(vm, except)
    ensures Private(wm, except)
  {
    var f := wm.ptes[r].frame;
    AcceptableIsUnmapped(vm, f, r.page.Huge?);
    hide Core, WritableIsPrivate;
    SamePtesPrivate(vm, TakeInHand(vm, f), except);
    PutDownPrivate(TakeInHand(vm, f), r, f, rw, except);
    SamePtesPrivate(PutDown(TakeInHand(vm, f), r, f, rw), wm, except);
  }

  /** The pages of a run were mapped on frames that were unused; memory is not touched. */
  ghost predicate RunMapped(vm: Vm, wm: Vm, d: nat, first: Page, num: nat, rw: bool) {
    && wm == vm.(ptes := wm.ptes, frames := wm.frames)
    && (forall r :: r in wm.ptes <==> r in vm.ptes || (r.dir == d && InExtent(first, num, r.page)))
    && (forall r :: r in vm.ptes ==> wm.ptes[r] == vm.ptes[r] && !(r.dir == d && InExtent(first, num, r.page)))
    && (forall p :: InExtent(first, num, p) ==> OnUnusedFrame(vm, wm, Ref(d, p), rw))
  }

  ghost predicate OnUnusedFrame(vm: Vm, wm: Vm, r: Ref, rw: bool) {
    && r in wm.ptes && wm.ptes[r].rw == rw && !wm.ptes[r].cow
    && wm.ptes[r].frame < |vm.frames| && vm.frames[wm.ptes[r].frame] == UNUSED
  }

  lemma RunMappedMore(before: Vm, vm: Vm, wm: Vm, d: nat, first: Page, k: nat, rw: bool)
    requires Core(before) && Core(vm)
    requires RunMapped(before, vm, d, first, k, rw) && MappedOne(vm, wm, Ref(d, Shift(first, k)), rw)
    ensures RunMapped(before, wm, d, first, k + 1, rw)
  {
    var f := wm.ptes[Ref(d, Shift(first, k))].frame;
    AcceptableIsUnmapped(vm, f, first.Huge?);
    UnusedBefore(before, vm, f);
    hide Core;
    RunExtended(before, vm, wm, d, first, k, rw);
  }

  lemma RunExtended(before: Vm, vm: Vm, wm: Vm, d: nat, first: Page, k: nat, rw: bool)
    requires RunMapped(before, vm, d, first, k, rw)
    requires MappedOne(vm, wm, Ref(d, Shift(first, k)), rw)
    requires wm.ptes[Ref(d, Shift(first, k))].frame < |before.frames|
    requires before.frames[wm.ptes[Ref(d, Shift(first, k))].frame] == UNUSED
    ensures RunMapped(before, wm, d, first, k + 1, rw)
  {
    hide Acceptable;
    var r := Ref(d, Shift(first, k));
    assert forall p :: InExtent(first, k + 1, p) <==> InExtent(first, k, p) || p == r.page;
    forall p | InExtent(first, k + 1, p) ensures OnUnusedFrame(before, wm, Ref(d, p), rw) {
      if p != r.page { assert OnUnusedFrame(before, vm, Ref(d, p), rw); }
    }
  }

  /** A frame unused after more was mapped was unused before. */
  lemma UnusedBefore(before: Vm, vm: Vm, f: nat)
    requires Core(before) && Core(vm) && vm == before.(ptes := vm.ptes, frames := vm.frames)
    requires forall r :: r in before.ptes ==> r in vm.ptes && vm.ptes[r] == before.ptes[r]
    requires f < SMALL_NUM && vm.frames[f] == UNUSED
    ensures before.frames[f] == UNUSED
  {
    assert vm.frames[f] == Expected(vm, f) && before.frames[f] == Expected(before, f);
    CountZero(Held(vm.ptes), f);
    CountZero(Held(before.ptes), f);
    assert forall r :: r in Held(before.ptes) ==> r in Held(vm.ptes) && Held(vm.ptes)[r] == Held(before.ptes)[r];
  }

  /** Once the mappings are as before, so is everything. */
  lemma MappingsRestored(vm: Vm, wm: Vm)
    requires Core(vm) && Core(wm) && wm == vm.(ptes := wm.ptes, frames := wm.frames)
    requires wm.ptes == vm.ptes
    ensures wm == vm
  {
  }

  // ---- Zeroing -------------------------------------------------------------------------------

  /** Memory with the pages of one frame set to zeros. */
  function Blank(mem: seq<Bytes>, f: nat): (m: seq<Bytes>)
    ensures |m| == |mem|
  {
    seq(|mem|, p requires 0 <= p < |mem| => if Covers(f, p) then Zeros() else mem[p])
  }

  ghost function BlankRun(vm: Vm, d: nat, first: Page, num: nat): (m: seq<Bytes>)
    ensures |m| == |vm.mem|
  {
    if num == 0 then vm.mem
    else
      var m := BlankRun(vm, d, first, num - 1);
      var r := Ref(d, Shift(first, num - 1));
      if r in vm.ptes then Blank(m, vm.ptes[r].frame) else m
  }

  lemma {:induction false} BlankRunAt(vm: Vm, d: nat, first: Page, num: nat, p: nat)
    requires p < |vm.mem|
    ensures (exists q :: InExtent(first, num, q) && Ref(d, q) in vm.ptes && Covers(vm.ptes[Ref(d, q)].frame, p))
      ==> BlankRun(vm, d, first, num)[p] == Zeros()
    ensures !(exists q :: InExtent(first, num, q) && Ref(d, q) in vm.ptes && Covers(vm.ptes[Ref(d, q)].frame, p))
      ==> BlankRun(vm, d, first, num)[p] == vm.mem[p]
  {
    if num > 0 {
      BlankRunAt(vm, d, first, num - 1, p);
      var last := Shift(first, num - 1);
      assert InExtent(first, num, last);
      assert forall q :: InExtent(first, num, q) <==> InExtent(first, num - 1, q) || q == last;
    }
  }

  lemma CoversPages(f: nat, k: nat)
    ensures k < PagesOf(f) ==> Covers(f, PhysicalPage(f, k))
  {
  }

  /** Mapping a run and zeroing it is what request_pages promises; other pages keep their bytes. */
  lemma ZeroedRun(vm: Vm, mid: Vm, wm: Vm, d: nat, first: Page, num: nat, rw: bool)
    requires Core(vm) && Core(mid) && RunMapped(vm, mid, d, first, num, rw)
    requires wm == mid.(mem := BlankRun(mid, d, first, num))
    ensures MappedEntries(vm, wm, d, first, num, !rw)
  {
    assert MemOk(vm);
    BlankRunSized(mid, d, first, num);
    ZeroingKeepsMapped(vm, mid, d, first, num, rw);
    hide Core, OnUnusedFrame, FreshlyMapped, MappedMemoryKept;
    forall p | InExtent(first, num, p) ensures FreshlyMapped(vm, wm, Ref(d, p), !rw) {
      NewBytesZero(vm, mid, wm, d, first, num, rw, p);
    }
  }

  lemma ZeroingKeepsMapped(vm: Vm, mid: Vm, d: nat, first: Page, num: nat, rw: bool)
    requires Core(vm) && Core(mid) && RunMapped(vm, mid, d, first, num, rw)
    ensures |vm.mem| == |BlankRun(mid, d, first, num)| == SMALL_NUM
    ensures MappedMemoryKept(vm, mid.(mem := BlankRun(mid, d, first, num)))
  {
    hide RunMapped;
    forall r, k | r in vm.ptes && 0 <= k < PagesOf(vm.ptes[r].frame) && PhysicalPage(vm.ptes[r].frame, k) < SMALL_NUM
      ensures BlankRun(mid, d, first, num)[PhysicalPage(vm.ptes[r].frame, k)]
              == vm.mem[PhysicalPage(vm.ptes[r].frame, k)]
    {
      OldBytesKept(vm, mid, d, first, num, rw, r, k);
    }
  }

  lemma {:induction false} BlankRunSized(vm: Vm, d: nat, first: Page, num: nat)
    requires MemOk(vm)
    ensures MemOk(vm.(mem := BlankRun(vm, d, first, num)))
  {
    if num > 0 { BlankRunSized(vm, d, first, num - 1); }
  }

  lemma OldBytesKept(vm: Vm, mid: Vm, d: nat, first: Page, num: nat, rw: bool, r: Ref, k: nat)
    requires Core(vm) && Core(mid) && RunMapped(vm, mid, d, first, num, rw)
    requires r in vm.ptes && k < PagesOf(vm.ptes[r].frame) && PhysicalPage(vm.ptes[r].frame, k) < SMALL_NUM
    ensures BlankRun(mid, d, first, num)[PhysicalPage(vm.ptes[r].frame, k)] == vm.mem[PhysicalPage(vm.ptes[r].frame, k)]
  {
    var f := vm.ptes[r].frame;
    var p := PhysicalPage(f, k);
    CoversPages(f, k);
    MappedFrameCounted(vm, r);
    MappedFrameCounted(mid, r);
    forall q | InExtent(first, num, q) && Ref(d, q) in mid.ptes
      ensures !Covers(mid.ptes[Ref(d, q)].frame, p)
    {
      assert OnUnusedFrame(vm, mid, Ref(d, q), rw);
      MappedFrameCounted(mid, Ref(d, q));
      FramesInUseAreDisjoint(mid.frames, f, mid.ptes[Ref(d, q)].frame, p);
    }
    BlankRunAt(mid, d, first, num, p);
  }

  lemma NewBytesZero(vm: Vm, mid: Vm, wm: Vm, d: nat, first: Page, num: nat, rw: bool, p: Page)
    requires RunMapped(vm, mid, d, first, num, rw) && InExtent(first, num, p)
    requires wm == mid.(mem := BlankRun(mid, d, first, num)) && MemOk(wm)
    ensures FreshlyMapped(vm, wm, Ref(d, p), !rw)
  {
    assert OnUnusedFrame(vm, mid, Ref(d, p), rw);
    var f := mid.ptes[Ref(d, p)].frame;
    forall k | 0 <= k < PagesOf(f) && PhysicalPage(f, k) < SMALL_NUM
      ensures wm.mem[PhysicalPage(f, k)] == Zeros()
    {
      CoversPages(f, k);
      BlankRunAt(mid, d, first, num, PhysicalPage(f, k));
    }
  }
}
