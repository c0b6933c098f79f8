/** How far clone_directory and free_directory have come on their walk over slots and tables. */
module DirectoryWalks {
  import opened AddressSpaces
  import opened Accounts
  import opened CopyOnWrite
  import opened CallEffects

  /** Page `p` comes before entry `j` of slot `i`. */
  predicate Passed(p: Page, i: nat, j: nat) {
    p.slot < i || (p.slot == i && p.Small? && p.index < j)
  }

  /** State of clone_directory(src) into `dst` before entry `j` of slot `i`. */
  ghost predicate Cloning(vm: Vm, wm: Vm, src: nat, dst: nat, i: nat, j: nat) {
    && wm.mem == vm.mem && wm.offline == vm.offline && wm.hand == vm.hand
    && dst !in vm.dirs && dst != src && dst !in vm.heap && wm.dirs == vm.dirs + {dst}
    && HeapGrown(vm, wm, dst)
    && ClonedTables(vm, wm, src, dst)
    && ClonedEntries(vm, wm, src, dst, i, j)
  }

  ghost predicate ClonedTables(vm: Vm, wm: Vm, src: nat, dst: nat) {
    && (forall t :: t in vm.tables ==> t.dir != dst)
    && (forall s: nat :: TableRef(dst, s) in wm.tables ==> TableRef(src, s) in vm.tables)
  }

  ghost predicate ClonedEntries(vm: Vm, wm: Vm, src: nat, dst: nat, i: nat, j: nat) {
    && (forall r: Ref :: r.dir != src && r.dir != dst ==>
          (r in wm.ptes <==> r in vm.ptes) && (r in vm.ptes ==> wm.ptes[r] == vm.ptes[r]))
    && (forall p :: Ref(src, p) in wm.ptes <==> Ref(src, p) in vm.ptes)
    && (forall p :: Ref(dst, p) in wm.ptes <==> Ref(src, p) in vm.ptes && Passed(p, i, j))
    && (forall p :: Ref(src, p) in vm.ptes && Passed(p, i, j) ==>
          wm.ptes[Ref(src, p)] == wm.ptes[Ref(dst, p)] == SharedPte(vm.ptes[Ref(src, p)]))
    && (forall p :: Ref(src, p) in vm.ptes && !Passed(p, i, j) ==> wm.ptes[Ref(src, p)] == vm.ptes[Ref(src, p)])
  }

  lemma CloneStarts(vm: Vm, mid: Vm, wm: Vm, src: nat, dst: nat)
    requires Core(vm) && (src in vm.dirs || src == INIT_DIRECTORY)
    requires mid == vm.(heap := mid.heap, frames := mid.frames)
    requires dst in mid.heap && dst !in vm.heap && dst < HEAP_PAGES
    requires forall k :: k in mid.heap <==> k in vm.heap || k == dst
    requires forall k :: k in vm.heap ==> mid.heap[k] == vm.heap[k]
    requires wm == AddDir(mid, dst)
    ensures Cloning(vm, wm, src, dst, 0, 0)
  {
  }

  /** The entry at the walk can be shared with the clone. */
  lemma CloneCanShare(vm: Vm, wm: Vm, src: nat, dst: nat, i: nat, j: nat, p: Page)
    requires NoDouble(vm.ptes) && PtesOk(vm) && Cloning(vm, wm, src, dst, i, j)
    requires Ref(src, p) in vm.ptes && p == (if p.Huge? then Huge(i) else Small(i, j))
    requires p.Huge? ==> j == 0
    requires p.Small? ==> TableRef(dst, i) in wm.tables
    ensures CanShare(wm, src, dst, p)
  {
  }

  lemma CloneShared(vm: Vm, wm: Vm, src: nat, dst: nat, i: nat, j: nat, p: Page)
    requires Cloning(vm, wm, src, dst, i, j) && Ref(src, p) in wm.ptes
    requires wm.ptes[Ref(src, p)].frame < |wm.frames|
    requires p == if p.Huge? then Huge(i) else Small(i, j)
    requires p.Huge? ==> j == 0 && forall k :: Ref(src, Small(i, k)) !in vm.ptes
    ensures p.Huge? ==> Cloning(vm, Share(wm, src, dst, p), src, dst, i + 1, 0)
    ensures p.Small? ==> Cloning(vm, Share(wm, src, dst, p), src, dst, i, j + 1)
  {
    SharedEntries(vm, wm, src, dst, i, j, p);
    SameHeapGrown(vm, wm, Share(wm, src, dst, p), dst);
    hide HeapGrown, ClonedEntries;
  }

  lemma SameHeapGrown(vm: Vm, wm: Vm, xm: Vm, d: nat)
    requires HeapGrown(vm, wm, d) && xm.heap == wm.heap && xm.tables == wm.tables
    ensures HeapGrown(vm, xm, d)
  {
  }

  lemma SharedEntries(vm: Vm, wm: Vm, src: nat, dst: nat, i: nat, j: nat, p: Page)
    requires ClonedEntries(vm, wm, src, dst, i, j) && Ref(src, p) in wm.ptes && src != dst
    requires wm.ptes[Ref(src, p)].frame < |wm.frames|
    requires p == if p.Huge? then Huge(i) else Small(i, j)
    requires p.Huge? ==> j == 0 && forall k :: Ref(src, Small(i, k)) !in vm.ptes
    ensures p.Huge? ==> ClonedEntries(vm, Share(wm, src, dst, p), src, dst, i + 1, 0)
    ensures p.Small? ==> ClonedEntries(vm, Share(wm, src, dst, p), src, dst, i, j + 1)
  {
    hide Passed, Share, ClonedEntries;
    PassesOne(vm, src, i, j, p);
    if p.Huge? {
      SharedOne(vm, wm, src, dst, i, j, p, i + 1, 0);
    } else {
      SharedOne(vm, wm, src, dst, i, j, p, i, j + 1);
    }
  }

  lemma SharedOne(vm: Vm, wm: Vm, src: nat, dst: nat, i: nat, j: nat, p: Page, i': nat, j': nat)
    requires ClonedEntries(vm, wm, src, dst, i, j) && Ref(src, p) in wm.ptes && src != dst
    requires wm.ptes[Ref(src, p)].frame < |wm.frames| && !Passed(p, i, j)
    requires forall q :: Ref(src, q) in vm.ptes ==> (Passed(q, i', j') <==> Passed(q, i, j) || q == p)
    ensures ClonedEntries(vm, Share(wm, src, dst, p), src, dst, i', j')
  {
    hide Passed;
  }

  /** The walk passes page p and no other page that is mapped. */
  lemma PassesOne(vm: Vm, src: nat, i: nat, j: nat, p: Page)
    requires p == if p.Huge? then Huge(i) else Small(i, j)
    requires p.Huge? ==> j == 0 && forall k :: Ref(src, Small(i, k)) !in vm.ptes
    ensures !Passed(p, i, j)
    ensures var i', j' := if p.Huge? then i + 1 else i, if p.Huge? then 0 else j + 1;
            forall q :: Ref(src, q) in vm.ptes ==> (Passed(q, i', j') <==> Passed(q, i, j) || q == p)
  {
  }

  /** Nothing is mapped at the walk: it moves on. */
  lemma CloneSkips(vm: Vm, wm: Vm, src: nat, dst: nat, i: nat, j: nat, i': nat, j': nat)
    requires Cloning(vm, wm, src, dst, i, j)
    requires forall p :: Ref(src, p) in vm.ptes ==> (Passed(p, i, j) <==> Passed(p, i', j'))
    ensures Cloning(vm, wm, src, dst, i', j')
  {
  }

  lemma CloneEnds(vm: Vm, wm: Vm, src: nat, dst: nat)
    requires Inv(vm) && Inv(wm) && Cloning(vm, wm, src, dst, ENTRIES, 0)
    ensures Forked(vm, wm, src, dst)
  {
    assert PtesOk(vm) && PtesOk(wm) && OwnersOk(wm);
    hide Inv, PtesOk;
    CloneComplete(vm, wm, src, dst);
    CloneTables(vm, wm, src, dst);
    hide Cloning, OwnersOk;
    ForkFollows(vm, wm, src, dst);
  }

  /** All pages have been passed. */
  lemma CloneComplete(vm: Vm, wm: Vm, src: nat, dst: nat)
    requires PtesOk(vm) && Cloning(vm, wm, src, dst, ENTRIES, 0)
    ensures forall p :: Ref(dst, p) in wm.ptes <==> Ref(src, p) in vm.ptes
    ensures forall p :: Ref(src, p) in vm.ptes ==>
              wm.ptes[Ref(src, p)] == wm.ptes[Ref(dst, p)] == SharedPte(vm.ptes[Ref(src, p)])
  {
    hide HeapGrown, ClonedTables, OwnersOk;
    forall p | Ref(src, p) in vm.ptes ensures Passed(p, ENTRIES, 0) { assert PteOk(vm, Ref(src, p)); }
  }

  lemma CloneTables(vm: Vm, wm: Vm, src: nat, dst: nat)
    requires PtesOk(wm) && OwnersOk(wm) && Cloning(vm, wm, src, dst, ENTRIES, 0)
    requires forall p :: Ref(dst, p) in wm.ptes <==> Ref(src, p) in vm.ptes
    ensures dst in wm.heap
    ensures forall s: nat, j: nat :: Ref(src, Small(s, j)) in vm.ptes ==> TableRef(dst, s) in wm.tables
  {
    hide HeapGrown, ClonedTables, ClonedEntries;
    forall s: nat, j: nat | Ref(src, Small(s, j)) in vm.ptes ensures TableRef(dst, s) in wm.tables {
      assert Ref(dst, Small(s, j)) in wm.ptes;
      assert PteOk(wm, Ref(dst, Small(s, j)));
    }
  }

  // ---- free_directory ------------------------------------------------------------------------

  /** State of free_directory(d) before entry `j` of slot `i`. */
  ghost predicate Freeing(vm: Vm, wm: Vm, d: nat, i: nat, j: nat) {
    && wm.mem == vm.mem && wm.offline == vm.offline && wm.hand == vm.hand && wm.dirs == vm.dirs
    && FreeingEntries(vm, wm, d, i, j)
    && FreeingHeap(vm, wm, d, i)
  }

  ghost predicate FreeingEntries(vm: Vm, wm: Vm, d: nat, i: nat, j: nat) {
    && (forall r :: r in wm.ptes <==> r in vm.ptes && !(r.dir == d && Passed(r.page, i, j)))
    && (forall r :: r in wm.ptes ==> wm.ptes[r] == vm.ptes[r])
  }

  ghost predicate FreeingHeap(vm: Vm, wm: Vm, d: nat, i: nat) {
    && (forall t :: t in wm.tables <==> t in vm.tables && !(t.dir == d && t.slot < i))
    && (forall t :: t in wm.tables ==> wm.tables[t] == vm.tables[t])
    && (forall h :: h in wm.heap <==>
          h in vm.heap && forall t :: t in vm.tables && t.dir == d && t.slot < i ==> vm.tables[t] != h)
    && (forall h :: h in wm.heap ==> wm.heap[h] == vm.heap[h])
  }

  /** Slot `i` is done: its table, if any, is gone with its heap page. */
  lemma FreeNextSlot(vm: Vm, wm: Vm, xm: Vm, d: nat, i: nat)
    requires Freeing(vm, wm, d, i, ENTRIES) && PtesOk(vm)
    requires Ref(d, Huge(i)) !in wm.ptes
    requires xm == wm.(tables := wm.tables - {TableRef(d, i)}, heap := xm.heap, frames := xm.frames)
    requires forall h :: h in xm.heap <==>
               h in wm.heap && !(TableRef(d, i) in wm.tables && h == wm.tables[TableRef(d, i)])
    requires forall h :: h in xm.heap ==> xm.heap[h] == wm.heap[h]
    ensures Freeing(vm, xm, d, i + 1, 0)
  {
  }

}
