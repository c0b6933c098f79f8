/** From right accounts to the effect of a call.

    The calls are proved to keep the accounts right step by step.  Here this is turned into what each
    of them does to the table of frames, as the relations of CopyOnWrite have it. */
module CallEffects {
  import opened FrameTable
  import opened Holders
  import opened AddressSpaces
  import opened Accounts
  import opened CopyOnWrite

  lemma GrowthFollows(vm: Vm, wm: Vm, d: nat)
    requires Inv(vm) && Inv(wm) && wm.offline == vm.offline && HeapGrown(vm, wm, d)
    requires OthersStay(vm.ptes, wm.ptes, d) && MappedStays(vm, wm)
    ensures Grows(vm, wm, d) && FramesFollow(vm, wm, d)
  {
    hide Core, Private, MappedStays, OthersStay;
    NewPagesTaken(vm, wm);
    NewTablesPlaced(vm, wm);
    hide HeapGrown, TablesPlaced;
    AccountsFollow(vm, wm, d);
  }

  lemma ForkFollows(vm: Vm, wm: Vm, src: nat, dst: nat)
    requires Inv(vm) && Inv(wm) && ForkedEntries(vm, wm, src, dst) && HeapGrown(vm, wm, dst)
    ensures Forked(vm, wm, src, dst)
  {
    assert PtesOk(vm) && NoDouble(vm.ptes) && wm.offline == vm.offline;
    hide Inv, HeapGrown, PtesOk, NoDouble;
    ForkedOthers(vm, wm, src, dst);
    forall r: Ref | r in vm.ptes ensures r in wm.ptes && wm.ptes[r].frame == vm.ptes[r].frame {
      assert r == Ref(r.dir, r.page) && r.dir != dst;
    }
    KeptEntriesStay(vm, wm);
    GrowthFollows(vm, wm, dst);
  }

  lemma MapFollows(vm: Vm, wm: Vm, d: nat, first: Page, num: nat, ro: bool)
    requires Inv(vm) && Inv(wm) && wm.offline == vm.offline && d in vm.dirs && HeapGrown(vm, wm, d)
    requires MappedEntries(vm, wm, d, first, num, ro) && (first.Huge? ==> wm.heap == vm.heap)
    ensures Mapped(vm, wm, d, first, num, ro)
  {
    assert vm.hand == {} && wm.hand == {};
    hide Core, Private, MappedEntries, FreshlyMapped, InExtent, HeapGrown, OthersStay;
    MapShape(vm, wm, d, first, num, ro);
    KeptEntriesStay(vm, wm);
    GrowthFollows(vm, wm, d);
    MapFramesFollow(vm, wm, d, first, num);
    hide MappedStays, Grows, FramesFollow, MappedFrames, Inv;
  }

  lemma MapShape(vm: Vm, wm: Vm, d: nat, first: Page, num: nat, ro: bool)
    requires MappedEntries(vm, wm, d, first, num, ro)
    ensures forall r :: r in vm.ptes ==> r in wm.ptes && wm.ptes[r].frame == vm.ptes[r].frame
    ensures OthersStay(vm.ptes, wm.ptes, d)
    ensures forall p :: InExtent(first, num, p) ==> OnFrame(vm, wm, Ref(d, p))
  {
    assert forall r :: r in vm.ptes ==> r in wm.ptes && wm.ptes[r] == vm.ptes[r];
    assert forall r :: r in wm.ptes ==> r in vm.ptes || (r.dir == d && InExtent(first, num, r.page));
    assert forall p :: InExtent(first, num, p) ==> FreshlyMapped(vm, wm, Ref(d, p), ro);
    hide InExtent, MappedEntries;
  }

  ghost predicate OnFrame(vm: Vm, wm: Vm, r: Ref) {
    r in wm.ptes && OnUnused(vm, wm.ptes[r].frame)
  }

  lemma MapFramesFollow(vm: Vm, wm: Vm, d: nat, first: Page, num: nat)
    requires Core(vm) && Core(wm) && vm.hand == {} && wm.hand == {} && wm.offline == vm.offline
    requires MappedStays(vm, wm) && HeapGrown(vm, wm, d) && (first.Huge? ==> wm.heap == vm.heap)
    requires forall p :: InExtent(first, num, p) ==> OnFrame(vm, wm, Ref(d, p))
    ensures MappedFrames(vm, wm, d, first, num)
  {
    assert forall h :: h in vm.heap ==> h in wm.heap && wm.heap[h] == vm.heap[h];
    hide Core, MappedStays, HeapGrown, InExtent, NewPageOk, OnOwnFrame;
    forall p | InExtent(first, num, p) ensures NewPageOk(vm, wm, Ref(d, p)) {
      assert OnFrame(vm, wm, Ref(d, p));
      NewPageFollows(vm, wm, Ref(d, p));
    }
    forall p, q | InExtent(first, num, p) && InExtent(first, num, q) && p != q
      ensures OnOwnFrame(wm, Ref(d, p), Ref(d, q))
    {
      assert OnFrame(vm, wm, Ref(d, p)) && OnFrame(vm, wm, Ref(d, q));
      OnOwn(wm, Ref(d, p), Ref(d, q));
    }
  }

  lemma OnOwn(wm: Vm, r: Ref, q: Ref)
    requires Core(wm) && r in wm.ptes && q in wm.ptes && r != q && r.dir == q.dir
    ensures OnOwnFrame(wm, r, q)
  {
  }

  lemma NewPageFollows(vm: Vm, wm: Vm, r: Ref)
    requires Core(vm) && Core(wm) && vm.hand == {} && wm.hand == {} && wm.offline == vm.offline
    requires MappedStays(vm, wm) && forall h :: h in vm.heap ==> h in wm.heap && wm.heap[h] == vm.heap[h]
    requires r in wm.ptes && wm.ptes[r].frame < |vm.frames| && vm.frames[wm.ptes[r].frame] == UNUSED
    ensures NewPageOk(vm, wm, r)
  {
    MappedFrameCounted(wm, r);
    assert PteOk(wm, r);
    hide Core, MappedStays, Available;
    TakenWasAvailable(vm, wm, wm.ptes[r].frame);
  }

  lemma RefuseFollows(vm: Vm, wm: Vm, d: nat)
    requires Inv(vm) && Inv(wm) && Refused(vm, wm, d) && d in vm.dirs
    ensures RefusedStep(vm, wm, d)
  {
    hide Inv, HeapGrown;
    KeptEntriesStay(vm, wm);
    GrowthFollows(vm, wm, d);
  }

  lemma UnmapFollows(vm: Vm, wm: Vm, r: Ref)
    requires Inv(vm) && Inv(wm) && wm == vm.(ptes := vm.ptes - {r}, frames := wm.frames)
    ensures Unmapped(vm, wm, r)
  {
    hide Core, Private;
    AccountsFollow(vm, wm, r.dir);
  }

  lemma ExitFollows(vm: Vm, wm: Vm, d: nat)
    requires Inv(vm) && Inv(wm) && wm.offline == vm.offline
    requires ExitedEntries(vm, wm, d) && ExitedHeap(vm, wm, d)
    ensures FramesFollow(vm, wm, d)
  {
    hide Core, Private;
    assert HeapAgrees(vm.heap, wm.heap);
    hide ExitedHeap;
    AccountsFollow(vm, wm, d);
  }

  lemma KernelFollows(vm: Vm, wm: Vm)
    requires Inv(vm) && Core(wm) && wm == vm.(heap := wm.heap, frames := wm.frames)
    requires HeapAgrees(vm.heap, wm.heap) && (vm.heap.Keys <= wm.heap.Keys || wm.heap.Keys <= vm.heap.Keys)
    ensures KernelMoved(vm, wm)
  {
    assert OwnersStay(vm, wm);
    hide Core, Private, OwnersStay;
    AccountsFollow(vm, wm, INIT_DIRECTORY);
    if vm.heap.Keys <= wm.heap.Keys {
      forall h | h in vm.heap ensures h in wm.heap { assert h in vm.heap.Keys; }
      KeptEntriesStay(vm, wm);
      NewPagesTaken(vm, wm);
    }
  }

  /** The entry moved off a frame that others use, or stayed on one of its own. */
  lemma ResolveFollows(vm: Vm, wm: Vm, r: Ref)
    requires Inv(vm) && Inv(wm) && wm.offline == vm.offline && HeapGrown(vm, wm, r.dir)
    requires ResolvedEntry(vm, wm, r) && (r.page.Huge? ==> wm.heap == vm.heap)
    requires wm.ptes[r].frame == vm.ptes[r].frame <==> Mappings(vm, vm.ptes[r].frame) == 1
    requires var g := wm.ptes[r].frame; g == vm.ptes[r].frame || (g < |vm.frames| && vm.frames[g] == UNUSED)
    ensures Resolved(vm, wm, r)
  {
    assert vm.hand == {} && wm.hand == {} && WritableIsPrivate(wm, r) && wm.ptes[r].rw && r in wm.ptes;
    MappedFrameCounted(vm, r);
    assert forall h :: h in vm.heap ==> h in wm.heap && wm.heap[h] == vm.heap[h];
    hide Core, Private, HeapGrown, ResolvedEntry, OthersStay, MappedStays, Available, Gains, NewPageOk;
    ResolvedShape(vm, wm, r);
    GrowthFollows(vm, wm, r.dir);
    hide Grows, FramesFollow, Inv, Mappings;
    if wm.ptes[r].frame != vm.ptes[r].frame { MovedToAvailable(vm, wm, r); }
  }

  lemma ResolvedShape(vm: Vm, wm: Vm, r: Ref)
    requires ResolvedEntry(vm, wm, r)
    requires wm.ptes[r].frame == vm.ptes[r].frame || Mappings(vm, vm.ptes[r].frame) > 1
    ensures MappedStays(vm, wm) && OthersStay(vm.ptes, wm.ptes, r.dir)
  {
    assert wm.ptes.Keys == vm.ptes.Keys && forall q :: q in vm.ptes && q != r ==> wm.ptes[q] == vm.ptes[q];
    hide ResolvedEntry, Mappings;
    ResolvedStays(vm, wm, r);
  }

  lemma MovedToAvailable(vm: Vm, wm: Vm, r: Ref)
    requires Core(vm) && Core(wm) && vm.hand == {} && wm.hand == {} && wm.offline == vm.offline
    requires MappedStays(vm, wm) && forall h :: h in vm.heap ==> h in wm.heap && wm.heap[h] == vm.heap[h]
    requires r in wm.ptes && wm.ptes[r].frame < |vm.frames| && vm.frames[wm.ptes[r].frame] == UNUSED
    ensures Available(vm.frames, wm.ptes[r].frame) && !Gains(vm.heap, wm.heap, wm.ptes[r].frame)
  {
    NewPageFollows(vm, wm, r);
    hide Core, MappedStays, Available, Gains;
  }

  lemma ResolvedStays(vm: Vm, wm: Vm, r: Ref)
    requires r in vm.ptes && wm.ptes.Keys == vm.ptes.Keys
    requires forall q :: q in vm.ptes && q != r ==> wm.ptes[q] == vm.ptes[q]
    requires wm.ptes[r].frame == vm.ptes[r].frame || Mappings(vm, vm.ptes[r].frame) > 1
    ensures MappedStays(vm, wm)
  {
    if wm.ptes[r].frame == vm.ptes[r].frame {
      KeptEntriesStay(vm, wm);
    } else {
      forall f | Mappings(vm, f) > 0 ensures Mappings(wm, f) > 0 {
        var s := Of(Held(vm.ptes), f);
        var q :| q in s;
        if q == r {
          assert |s - {r}| > 0;
          q :| q in s - {r};
        }
        assert q in vm.ptes && q != r && wm.ptes[q].frame == f;
        CountPositive(Held(wm.ptes), q);
      }
    }
  }
}
