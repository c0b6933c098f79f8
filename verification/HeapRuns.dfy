/** Whole runs of the kernel heap (src/liballoc/liballoc.c): what the owner of a block may rely on
    while others allocate, free, shrink and write. */
module HeapRuns {
  import opened HeapLayout
  import opened KernelHeap
  import opened Sequences

  datatype State = State(layout: Layout, bytes: map<nat, int>)

  /** Writes by the owner of a live block, which stay in the bytes it asked for. */
  ghost predicate Writes(s: State, t: State, c: Block) {
    && IsBlock(s.layout, c) && t.layout == s.layout
    && forall x: nat :: !(PayloadStart(c) <= x < PayloadStart(c) + c.req) ==> Byte(t.bytes, x) == Byte(s.bytes, x)
  }

  ghost predicate Allocated(s: State, t: State, req: nat, grant: nat, p: nat) {
    && (grant == 0 || Grantable(s.layout, NewRegion(grant, req)))
    && Allocates(s.layout, t.layout, s.bytes, t.bytes, req, grant, p)
  }

  /** One call, or one write, that does not concern the block at address `a`. */
  ghost predicate ElsewhereStep(s: State, t: State, a: nat) {
    || (exists req, grant, p :: Allocated(s, t, req, grant, p))
    || (exists f :: f != a && FreedIn(s.layout, t.layout, f) && t.bytes == s.bytes)
    || (exists f, req :: f != a && ShrunkIn(s.layout, t.layout, f, req) && t.bytes == s.bytes)
    || (exists c: Block :: c.addr != a && Writes(s, t, c))
  }

  ghost predicate SameBytes(bytes: map<nat, int>, bytes': map<nat, int>, b: Block) {
    forall x: nat :: b.addr <= x < End(b) ==> Byte(bytes', x) == Byte(bytes, x)
  }

  lemma StepKeepsBlock(s: State, t: State, b: Block)
    requires LayoutOk(s.layout) && IsBlock(s.layout, b) && ElsewhereStep(s, t, b.addr)
    ensures LayoutOk(t.layout) && IsBlock(t.layout, b) && SameBytes(s.bytes, t.bytes, b)
  {
    hide FreedIn, ShrunkIn, Allocates, Writes, LayoutOk, IsBlock;
    if req, grant, p :| Allocated(s, t, req, grant, p) {
      AllocationStep(s, t, req, grant, p, b);
    } else if f :| f != b.addr && FreedIn(s.layout, t.layout, f) && t.bytes == s.bytes {
      FreeingIsLocal(s.layout, t.layout, f);
    } else if f, req :| f != b.addr && ShrunkIn(s.layout, t.layout, f, req) && t.bytes == s.bytes {
      ShrinkingIsLocal(s.layout, t.layout, f, req);
    } else {
      var c: Block :| c.addr != b.addr && Writes(s, t, c);
      WriteStep(s, t, c, b);
    }
  }

  lemma AllocationStep(s: State, t: State, req: nat, grant: nat, p: nat, b: Block)
    requires LayoutOk(s.layout) && IsBlock(s.layout, b) && Allocated(s, t, req, grant, p)
    ensures LayoutOk(t.layout) && IsBlock(t.layout, b) && SameBytes(s.bytes, t.bytes, b)
  {
    hide Allocates, IsBlock, Regions;
    var nb := AllocatesFresh(s.layout, t.layout, s.bytes, t.bytes, req, grant, p);
    AllocatesKeeps(s.layout, t.layout, s.bytes, t.bytes, req, grant, p);
  }

  lemma WriteStep(s: State, t: State, c: Block, b: Block)
    requires LayoutOk(s.layout) && IsBlock(s.layout, b) && c.addr != b.addr && Writes(s, t, c)
    ensures LayoutOk(t.layout) && IsBlock(t.layout, b) && SameBytes(s.bytes, t.bytes, b)
  {
    SameBlock(s.layout, b, c);
    SlackOf(s.layout, c);
    AlignRoundTrip(c);
  }

  ghost predicate ElsewhereRun(run: seq<State>, a: nat) {
    run != [] && forall i: nat :: i < |run| - 1 ==> Succeeds(run, i, a)
  }

  ghost predicate Succeeds(run: seq<State>, i: nat, a: nat)
    requires i < |run| - 1
  {
    ElsewhereStep(run[i], run[i + 1], a)
  }

  /** Until its own free or shrink a block stays where it is, no call and no other owner's write
      changes any byte of it, and it overlaps no other live block. */
  lemma {:induction false} RunKeepsBlock(run: seq<State>, b: Block)
    requires ElsewhereRun(run, b.addr) && LayoutOk(run[0].layout) && IsBlock(run[0].layout, b)
    ensures var last := run[|run| - 1];
            && LayoutOk(last.layout) && IsBlock(last.layout, b) && SameBytes(run[0].bytes, last.bytes, b)
            && forall c :: IsBlock(last.layout, c) && c != b ==> BlocksApart(b, c)
  {
    var n := |run| - 1;
    if n > 0 {
      var before := run[..n];
      forall i: nat | i < n - 1 ensures Succeeds(before, i, b.addr) {
        assert Succeeds(run, i, b.addr);
      }
      RunKeepsBlock(before, b);
      assert Succeeds(run, n - 1, b.addr);
      hide LayoutOk, ElsewhereStep, IsBlock, ElsewhereRun;
      StepKeepsBlock(run[n - 1], run[n], b);
    }
    var last := run[n];
    hide IsBlock, ElsewhereRun, Regions;
    forall c | IsBlock(last.layout, c) && c != b ensures BlocksApart(b, c) {
      SameBlock(last.layout, b, c);
    }
  }

  /** krealloc to a larger size keeps the old contents at the new place and every other block. */
  lemma ReallocationMoves(l: Layout, m: Layout, bytes: map<nat, int>, bytes': map<nat, int>, b: Block, size: nat,
                          grant: nat, q: nat, crashed: bool) returns (nb: Block)
    requires LayoutOk(l) && IsBlock(l, b) && (grant == 0 || Grantable(l, NewRegion(grant, size)))
    requires Reallocates(l, m, bytes, bytes', b, size, grant, q, crashed) && b.req < size && q != 0
    ensures !crashed && IsBlock(m, nb) && q == PayloadStart(nb) && nb.req == size
    ensures forall j: nat :: j < b.req ==> ByteIndex(bytes', q, j) == ByteIndex(bytes, PayloadStart(b), j)
    ensures forall c :: IsBlock(m, c) <==> c == nb || (IsBlock(l, c) && c != b)
    ensures forall c :: IsBlock(l, c) && c != b ==> SameBytes(bytes, bytes', c)
  {
    hide Allocates, FreedIn, IsBlock, Regions, Full, Grantable;
    var l1, bytes1 :| MovesVia(l, m, bytes, bytes', b, size, grant, q, l1, bytes1);
    nb := AllocatesFresh(l, l1, bytes, bytes1, size, grant, q);
    AllocatesKeeps(l, l1, bytes, bytes1, size, grant, q);
    FreeingIsLocal(l1, m, b.addr);
    DifferentAddr(l, b);
    SlackOf(l, b);
    SlackOf(l1, nb);
    MovedBytes(bytes, bytes1, bytes', l, b, nb);
  }

  /** krealloc to a size that is not larger leaves the block where it is and changes only the request
      that is remembered. */
  lemma ReallocationShrinks(l: Layout, m: Layout, bytes: map<nat, int>, bytes': map<nat, int>, b: Block, size: nat,
                            grant: nat, q: nat, crashed: bool)
    requires LayoutOk(l) && IsBlock(l, b)
    requires Reallocates(l, m, bytes, bytes', b, size, grant, q, crashed) && size <= b.req
    ensures !crashed && q == PayloadStart(b) && IsBlock(m, b.(req := size))
    ensures forall x: nat :: Byte(bytes', x) == Byte(bytes, x)
    ensures forall c: Block :: c.addr != b.addr ==> (IsBlock(m, c) <==> IsBlock(l, c))
  {
    ShrinkingIsLocal(l, m, b.addr, size);
    var k, i :| 0 <= k < |l| && 0 <= i < |l[k].blocks| && ShrunkAt(l, m, b.addr, size, k, i);
    assert IsBlock(l, l[k].blocks[i]);
    assert l[k].blocks[i] == b by { DifferentAddr(l, b); }
    assert m[k].blocks[i] == b.(req := size);
  }

  /** krealloc to a larger size gives null only if no pages are granted and no gap fits.  Then not a byte
      changes, and the old block stays, with a crash, unless it was empty: then it is freed. */
  lemma ReallocationFails(l: Layout, m: Layout, bytes: map<nat, int>, bytes': map<nat, int>, b: Block, size: nat,
                          grant: nat, q: nat, crashed: bool)
    requires LayoutOk(l) && IsBlock(l, b)
    requires Reallocates(l, m, bytes, bytes', b, size, grant, q, crashed) && b.req < size && q == 0
    ensures grant == 0 && (crashed <==> b.req > 0)
    ensures forall k: nat, i: nat :: k < |l| && i <= |l[k].blocks| ==>
              GapEnd(l[k], i) < GapStart(l[k], i) + 24 + size + 32
    ensures forall x: nat :: Byte(bytes', x) == Byte(bytes, x)
    ensures forall c :: IsBlock(m, c) <==> IsBlock(l, c) && (b.req > 0 || c != b)
  {
    forall k: nat, i: nat | k < |l| && i <= |l[k].blocks|
      ensures GapEnd(l[k], i) < GapStart(l[k], i) + 24 + size + 32
    {
      assert !HasRoom(l[k], i, MINOR + size + ALIGNMENT + ALIGN_INFO);
    }
    if b.req == 0 {
      FreeingIsLocal(l, m, b.addr);
      DifferentAddr(l, b);
    }
    hide IsBlock, LayoutOk, FreedIn;
  }

  /** kfree returns pages exactly when a region goes, and then all pages of that region. */
  lemma FreeReturnsRegion(l: Layout, m: Layout, a: nat, back: nat, pages: nat)
    requires Frees(l, m, a, back, pages) && Regions(l)
    ensures |m| <= |l| <= |m| + 1 && (|m| == |l| <==> back == 0)
    ensures back != 0 ==> exists k: nat :: k < |l| && m == RemoveAt(l, k) && l[k].addr == back && l[k].pages == pages
  {
  }

  function ByteIndex(bytes: map<nat, int>, p: nat, j: nat): int {
    Byte(bytes, p + j)
  }

  lemma DifferentAddr(l: Layout, b: Block)
    requires LayoutOk(l) && IsBlock(l, b)
    ensures forall c :: IsBlock(l, c) && c != b ==> c.addr != b.addr
  {
    hide IsBlock;
    forall c | IsBlock(l, c) && c != b ensures c.addr != b.addr {
      SameBlock(l, b, c);
    }
  }

  lemma MovedBytes(bytes: map<nat, int>, bytes1: map<nat, int>, bytes': map<nat, int>, l: Layout, b: Block, nb: Block)
    requires b.req + ALIGNMENT + ALIGN_INFO <= b.size && b.req < nb.req && nb.req + ALIGNMENT + ALIGN_INFO <= nb.size
    requires IsBlock(l, b) && Copied(bytes1, bytes', PayloadStart(nb), PayloadStart(b), b.req)
    requires forall c :: IsBlock(l, c) ==> BlocksApart(nb, c) && SameBytes(bytes, bytes1, c)
    ensures forall j: nat ::
              j < b.req ==> ByteIndex(bytes', PayloadStart(nb), j) == ByteIndex(bytes, PayloadStart(b), j)
    ensures forall c :: IsBlock(l, c) ==> SameBytes(bytes, bytes', c)
  {
  }
}
