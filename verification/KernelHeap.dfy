/** The kernel heap (src/liballoc/liballoc.c): kmalloc, kfree and krealloc over linked headers.

    `layout` is the list of regions and blocks the headers stand for.  `bytes` is the memory
    between the headers; the alignment byte of a block is the byte 16 before its pointer. */
module KernelHeap {
  import opened Sequences
  import opened HeapLayout
  import opened HeapLinks

  const MAX_PAGES: nat := 0xffff   // the page source takes a 16-bit count
  const MAX_REQUEST: nat := MAX_PAGES * PAGE_SIZE - MAJOR - MINOR - ALIGNMENT - ALIGN_INFO

  function Byte(bytes: map<nat, int>, a: nat): int {
    if a in bytes then bytes[a] else 0
  }

  /** The byte 16 before every block's pointer leads back to the block. */
  ghost predicate AlignBytes(bytes: map<nat, int>, l: Layout) {
    forall b :: IsBlock(l, b) ==> AlignByteRight(bytes, b)
  }

  predicate AlignByteRight(bytes: map<nat, int>, b: Block) {
    Byte(bytes, PayloadStart(b) - ALIGN_INFO) == AlignByte(b)
  }

  /** Nothing but the byte at `a` changed. */
  ghost predicate OnlyByte(bytes: map<nat, int>, bytes': map<nat, int>, a: nat) {
    forall x: nat :: x != a ==> Byte(bytes', x) == Byte(bytes, x)
  }

  ghost predicate IsRegion(l: Layout, a: nat) {
    exists k: nat :: k < |l| && l[k].addr == a
  }

  /** The header kfree and krealloc look at, in 32-bit arithmetic. */
  function HeaderOf(bytes: map<nat, int>, ptr: nat): nat {
    (Unaligned(ptr, Byte(bytes, (ptr + WORD - ALIGN_INFO) % WORD)) + WORD - MINOR) % WORD
  }

  lemma HeaderOfPointer(bytes: map<nat, int>, l: Layout, b: Block)
    requires Regions(l) && AlignBytes(bytes, l) && IsBlock(l, b)
    ensures HeaderOf(bytes, PayloadStart(b)) == b.addr && PayloadStart(b) != 0
  {
    var k, i :| 0 <= k < |l| && 0 <= i < |l[k].blocks| && l[k].blocks[i] == b;
    BlockInside(l[k], i);
    assert AlignByteRight(bytes, b);
    AlignRoundTrip(b);
    assert (PayloadStart(b) + WORD - ALIGN_INFO) % WORD == PayloadStart(b) - ALIGN_INFO;
  }

  lemma PlacedKeepsBytes(bytes: map<nat, int>, bytes': map<nat, int>, l: Layout, m: Layout, req: nat, k: nat, i: nat)
    requires Regions(l) && AlignBytes(bytes, l) && k < |l| && i <= |l[k].blocks|
    requires Placed(l, m, k, i, NewBlock(l[k], i, req))
    requires OnlyByte(bytes, bytes', PayloadStart(NewBlock(l[k], i, req)) - ALIGN_INFO)
    requires AlignByteRight(bytes', NewBlock(l[k], i, req))
    ensures AlignBytes(bytes', m)
  {
    var b := NewBlock(l[k], i, req);
    AllocatedRegions(l, m, req, k, i);
    hide Regions, Placed, IsBlock;
    forall c | IsBlock(m, c) ensures AlignByteRight(bytes', c) {
      AllocationAddsOne(l, m, req, k, i, c);
      if c != b {
        AllocationKeeps(l, m, req, k, i, c);
        SlackOf(m, c);
        AlignRoundTrip(b);
        AlignRoundTrip(c);
        assert AlignByteRight(bytes, c);
      }
    }
  }

  lemma SlackOf(l: Layout, b: Block)
    requires Regions(l) && IsBlock(l, b)
    ensures b.req + ALIGNMENT + ALIGN_INFO <= b.size
  {
  }

  lemma TotalsAfterPlacing(l: Layout, k: nat, i: nat, b: Block)
    requires k < |l| && i <= |l[k].blocks|
    ensures TotalSize(Grown(l, k, i, b)) == TotalSize(l)
    ensures TotalPayload(Grown(l, k, i, b)) == TotalPayload(l) + b.size
  {
    InsertSums(l[k].blocks, i, b);
    ReplaceTotals(l, k, l[k].(blocks := InsertAt(l[k].blocks, i, b)));
  }

  predicate NullOrIn(a: nat, minors: map<nat, Minor>) {
    a == 0 || a in minors
  }

  function LinkedIn(minors: map<nat, Minor>, maj: nat, prev: nat, next: nat, at: nat, size: nat, req: nat)
    : map<nat, Minor>
    requires NullOrIn(prev, minors) && NullOrIn(next, minors)
  {
    var m1 := minors[at := Minor(prev, next, maj, MAGIC, size, req)];
    var m2 := if prev != 0 then m1[prev := m1[prev].(next := at)] else m1;
    if next != 0 then m2[next := m2[next].(prev := at)] else m2
  }

  function Charged(majors: map<nat, Major>, maj: nat, prev: nat, at: nat, size: nat): map<nat, Major>
    requires maj in majors
  {
    var m := majors[maj];
    majors[maj := m.(usage := m.usage + size + MINOR, first := if prev == 0 then at else m.first)]
  }

  /** The header before gap i of region k, when there is one. */
  lemma HeaderBefore(minors: map<nat, Minor>, l: Layout, k: nat, i: int)
    requires Regions(l) && k < |l| && MinorsLinked(minors, l[k])
    ensures BlockAddr(l[k], i) == 0 <==> !(0 <= i < |l[k].blocks|)
    ensures BlockAddr(l[k], i) != 0 ==> BlockAddr(l[k], i) in minors
  {
    if 0 <= i < |l[k].blocks| { BlockInside(l[k], i); }
  }

  lemma LinkIsInsertion(majors: map<nat, Major>, minors: map<nat, Minor>, l: Layout, k: nat, i: nat, b: Block)
    requires Regions(l) && Linked(majors, minors, l) && k < |l| && Fits(l[k], i, b)
    ensures l[k].addr in majors
    ensures NullOrIn(BlockAddr(l[k], i - 1), minors) && NullOrIn(BlockAddr(l[k], i), minors)
    ensures Linked(Charged(majors, l[k].addr, BlockAddr(l[k], i - 1), b.addr, b.size),
                   LinkedIn(minors, l[k].addr, BlockAddr(l[k], i - 1), BlockAddr(l[k], i), b.addr, b.size, b.req),
                   Grown(l, k, i, b))
  {
    assert MinorsLinked(minors, l[k]) && i <= |l[k].blocks|;
    MajorAt(majors, minors, l, k);
    hide Regions, Linked, Fits, Grown, BlockAddr, MinorsLinked;
    HeaderBefore(minors, l, k, i - 1);
    HeaderBefore(minors, l, k, i);
    InsertLinked(majors, minors, l, k, i, b);
    SameLinks(majors, minors, l[k], i, b);
  }

  lemma SameLinks(majors: map<nat, Major>, minors: map<nat, Minor>, r: Region, i: nat, b: Block)
    requires r.addr in majors && MinorsLinked(minors, r) && i <= |r.blocks|
    requires BlockAddr(r, i - 1) == 0 <==> i == 0
    requires BlockAddr(r, i) == 0 <==> i == |r.blocks|
    ensures NullOrIn(BlockAddr(r, i - 1), minors) && NullOrIn(BlockAddr(r, i), minors)
    ensures Charged(majors, r.addr, BlockAddr(r, i - 1), b.addr, b.size) == WithUsage(majors, r, i, b)
    ensures LinkedIn(minors, r.addr, BlockAddr(r, i - 1), BlockAddr(r, i), b.addr, b.size, b.req)
         == WithMinor(minors, r, i, b)
  {
  }

  /** The globals and the alignment bytes agree with a layout. */
  ghost predicate Agree(memRoot: nat, bestBet: nat, allocatedBytes: nat, inUse: nat, bytes: map<nat, int>, l: Layout) {
    && memRoot == RegionAddr(l, 0)
    && (bestBet == 0 || IsRegion(l, bestBet))
    && allocatedBytes == TotalSize(l) && inUse == TotalPayload(l)
    && AlignBytes(bytes, l)
  }

  /** Gap i of region k, seen from the headers around it, has room for a block for `req` bytes. */
  ghost predicate AtGap(l: Layout, k: nat, i: nat, maj: nat, prev: nat, next: nat, at: nat, size: nat, req: nat) {
    && k < |l| && i <= |l[k].blocks| && maj == l[k].addr
    && prev == BlockAddr(l[k], i - 1) && next == BlockAddr(l[k], i)
    && Block(at, size, req) == NewBlock(l[k], i, req) && HasRoom(l[k], i, MINOR + size)
  }

  /** The new block is in the gap, its pointer is p, and no byte but its alignment byte changed. */
  ghost predicate Puts(l: Layout, m: Layout, bytes: map<nat, int>, bytes': map<nat, int>, req: nat, p: nat, k: nat,
                       i: nat) {
    && k < |l| && i <= |l[k].blocks|
    && Placed(l, m, k, i, NewBlock(l[k], i, req)) && p == PayloadStart(NewBlock(l[k], i, req))
    && OnlyByte(bytes, bytes', p - ALIGN_INFO)
  }

  lemma GapFacts(majors: map<nat, Major>, minors: map<nat, Minor>, l: Layout, k: nat, i: nat,
                 maj: nat, prev: nat, next: nat, at: nat, size: nat, req: nat)
    requires Regions(l) && Linked(majors, minors, l) && AtGap(l, k, i, maj, prev, next, at, size, req)
    ensures maj in majors && NullOrIn(prev, minors) && NullOrIn(next, minors)
    ensures k < |l| && i <= |l[k].blocks|
    ensures Block(at, size, req) == NewBlock(l[k], i, req) && HasRoom(l[k], i, MINOR + size)
    ensures Linked(Charged(majors, maj, prev, at, size), LinkedIn(minors, maj, prev, next, at, size, req),
                   Grown(l, k, i, Block(at, size, req)))
  {
    LinkIsInsertion(majors, minors, l, k, i, Block(at, size, req));
  }

  lemma PlacedAgrees(memRoot: nat, bestBet: nat, allocatedBytes: nat, inUse: nat, bytes: map<nat, int>,
                     bytes': map<nat, int>, l: Layout, k: nat, i: nat, req: nat)
    requires Regions(l) && Agree(memRoot, bestBet, allocatedBytes, inUse, bytes, l) && k < |l| && i <= |l[k].blocks|
    requires HasRoom(l[k], i, MINOR + NewBlock(l[k], i, req).size)
    requires AlignByteRight(bytes', NewBlock(l[k], i, req))
    requires OnlyByte(bytes, bytes', PayloadStart(NewBlock(l[k], i, req)) - ALIGN_INFO)
    ensures var b := NewBlock(l[k], i, req); var m := Grown(l, k, i, b);
            && Regions(m) && Puts(l, m, bytes, bytes', req, PayloadStart(b), k, i)
            && Agree(memRoot, bestBet, allocatedBytes, inUse + b.size, bytes', m)
  {
    var b := NewBlock(l[k], i, req);
    var m := Grown(l, k, i, b);
    AllocatedRegions(l, m, req, k, i);
    PlacedKeepsBytes(bytes, bytes', l, m, req, k, i);
    TotalsAfterPlacing(l, k, i, b);
    forall n: nat | n < |l| ensures m[n].addr == l[n].addr {}
    hide Regions, AlignBytes, TotalSize, TotalPayload, Placed, OnlyByte;
  }

  /** What Place leaves behind. */
  lemma PlacingKeeps(memRoot: nat, bestBet: nat, allocatedBytes: nat, inUse: nat, bytes: map<nat, int>,
                     majors: map<nat, Major>, minors: map<nat, Minor>, l: Layout, k: nat, i: nat,
                     maj: nat, prev: nat, next: nat, at: nat, size: nat, req: nat)
    requires Regions(l) && Linked(majors, minors, l) && Agree(memRoot, bestBet, allocatedBytes, inUse, bytes, l)
    requires AtGap(l, k, i, maj, prev, next, at, size, req)
    ensures maj in majors && NullOrIn(prev, minors) && NullOrIn(next, minors) && k < |l| && i <= |l[k].blocks|
    ensures var m := Grown(l, k, i, Block(at, size, req)); var p := Aligned(at + MINOR);
            var bytes' := bytes[p - ALIGN_INFO := p - (at + MINOR)];
            && Regions(m)
            && Linked(Charged(majors, maj, prev, at, size), LinkedIn(minors, maj, prev, next, at, size, req), m)
            && Agree(memRoot, bestBet, allocatedBytes, inUse + size, bytes', m)
            && Puts(l, m, bytes, bytes', req, p, k, i)
  {
    hide Linked, LinkedIn, Charged, BlockAddr, Grown, AtGap, Puts, HasRoom, Regions, AlignBytes, TotalSize,
        TotalPayload;
    GapFacts(majors, minors, l, k, i, maj, prev, next, at, size, req);
    var p := Aligned(at + MINOR);
    PlacedAgrees(memRoot, bestBet, allocatedBytes, inUse, bytes, bytes[p - ALIGN_INFO := p - (at + MINOR)], l, k, i,
        req);
  }

  ghost predicate AtBlock(l: Layout, k: nat, i: nat, maj: nat, min: nat) {
    k < |l| && i < |l[k].blocks| && maj == l[k].addr && min == l[k].blocks[i].addr
  }

  ghost predicate RoomAt(l: Layout, k: nat, i: nat, need: nat) {
    k < |l| && i <= |l[k].blocks| && HasRoom(l[k], i, need)
  }

  /** The space behind block i, from its header and the next one. */
  lemma BehindBlock(majors: map<nat, Major>, minors: map<nat, Minor>, l: Layout, k: nat, i: nat,
                    maj: nat, min: nat, size: nat, req: nat)
    requires Regions(l) && Linked(majors, minors, l) && AtBlock(l, k, i, maj, min)
    requires size == req + ALIGNMENT + ALIGN_INFO
    ensures maj in majors && min in minors
    ensures var next := minors[min].next; var at := min + MINOR + minors[min].size;
            var end := if next == 0 then maj + majors[maj].size else next;
            && at <= end && (RoomAt(l, k, i + 1, MINOR + size) <==> at + MINOR + size <= end)
            && (at + MINOR + size <= end ==> AtGap(l, k, i + 1, maj, min, next, at, size, req))
  {
    hide Regions, Linked, Used;
    HeadersAt(majors, minors, l, k, i);
    NullIff(l, k, i + 1);
    GapInOrder(l, k, i + 1);
  }

  lemma HeadersAt(majors: map<nat, Major>, minors: map<nat, Minor>, l: Layout, k: nat, i: nat)
    requires Linked(majors, minors, l) && k < |l| && i < |l[k].blocks|
    ensures l[k].addr in majors && majors[l[k].addr] == MajorOf(l, k)
    ensures l[k].blocks[i].addr in minors && minors[l[k].blocks[i].addr] == MinorOf(l[k], i)
    ensures MinorsLinked(minors, l[k])
  {
  }

  lemma NullIff(l: Layout, k: nat, i: int)
    requires Regions(l) && k < |l|
    ensures BlockAddr(l[k], i) == 0 <==> !(0 <= i < |l[k].blocks|)
  {
    if 0 <= i < |l[k].blocks| { BlockInside(l[k], i); }
  }

  lemma GapInOrder(l: Layout, k: nat, i: nat)
    requires Regions(l) && k < |l| && i <= |l[k].blocks|
    ensures GapStart(l[k], i) <= GapEnd(l[k], i)
  {
  }

  ghost predicate AtRegion(l: Layout, k: nat, maj: nat) {
    k < |l| && maj == l[k].addr
  }

  /** None of the first gaps of region k, gap i included, has room. */
  ghost predicate NoneUpTo(l: Layout, k: nat, i: nat, need: nat) {
    forall j: nat :: j <= i ==> !RoomAt(l, k, j, need)
  }

  ghost predicate Crammed(l: Layout, k: nat, need: nat) {
    k < |l| && NoRoom(l[k], need)
  }

  /** A block for `req` bytes was put into the first gap of region k with room. */
  ghost predicate Fills(l: Layout, m: Layout, bytes: map<nat, int>, bytes': map<nat, int>, req: nat, p: nat, k: nat) {
    exists i: nat :: Puts(l, m, bytes, bytes', req, p, k, i)
                  && (i > 0 ==> NoneUpTo(l, k, i - 1, MINOR + req + ALIGNMENT + ALIGN_INFO))
  }

  lemma FirstHeader(majors: map<nat, Major>, minors: map<nat, Minor>, l: Layout, k: nat, maj: nat, need: nat)
    requires Regions(l) && Linked(majors, minors, l) && AtRegion(l, k, maj)
    ensures maj in majors
    ensures majors[maj].first != 0 ==> AtBlock(l, k, 0, maj, majors[maj].first)
    ensures majors[maj].first == 0 && NoneUpTo(l, k, 0, need) ==> Crammed(l, k, need)
  {
    hide Regions;
    NullIff(l, k, 0);
    assert majors[maj] == MajorOf(l, k);
    assert !RoomAt(l, k, 0, need) && |l[k].blocks| == 0 ==> NoRoom(l[k], need);
  }

  lemma NextHeader(majors: map<nat, Major>, minors: map<nat, Minor>, l: Layout, k: nat, i: nat, maj: nat, min: nat,
                   need: nat)
    requires Regions(l) && Linked(majors, minors, l) && AtBlock(l, k, i, maj, min)
    ensures k < |l| && i < |l[k].blocks| && min in minors
    ensures minors[min].next != 0 ==> AtBlock(l, k, i + 1, maj, minors[min].next)
    ensures NoneUpTo(l, k, i, need) && !RoomAt(l, k, i + 1, need) ==> NoneUpTo(l, k, i + 1, need)
    ensures minors[min].next == 0 && NoneUpTo(l, k, i + 1, need) ==> Crammed(l, k, need)
  {
    hide Regions, Linked, Used, HasRoom;
    HeadersAt(majors, minors, l, k, i);
    NullIff(l, k, i + 1);
    assert NoneUpTo(l, k, |l[k].blocks|, need) ==> NoRoom(l[k], need) by {
      if NoneUpTo(l, k, |l[k].blocks|, need) {
        forall j | 0 <= j <= |l[k].blocks| ensures !HasRoom(l[k], j, need) {
          assert !RoomAt(l, k, j, need);
        }
      }
    }
  }

  ghost predicate FreeEnough(l: Layout, k: nat, need: nat) {
    k < |l| && MAJOR + Used(l[k].blocks) + need <= Size(l[k])
  }

  /** The space in front of the first block. */
  lemma FrontGap(majors: map<nat, Major>, minors: map<nat, Minor>, l: Layout, k: nat, maj: nat, size: nat, req: nat)
    requires Regions(l) && Linked(majors, minors, l) && AtRegion(l, k, maj) && size == req + ALIGNMENT + ALIGN_INFO
    ensures maj in majors
    ensures var first := majors[maj].first;
            if first == 0 then FreeEnough(l, k, MINOR + size) ==> AtGap(l, k, 0, maj, 0, 0, maj + MAJOR, size, req)
            else && maj + MAJOR <= first
                 && if size + MINOR <= first - maj - MAJOR then AtGap(l, k, 0, maj, 0, first, maj + MAJOR, size, req)
                    else NoneUpTo(l, k, 0, MINOR + size)
  {
    hide Regions, Linked, Used;
    NullIff(l, k, 0);
    GapInOrder(l, k, 0);
    MajorAt(majors, minors, l, k);
    EmptyUses(l[k]);
  }

  lemma EmptyUses(r: Region)
    ensures r.blocks == [] ==> Used(r.blocks) == 0
  {
  }

  lemma MajorAt(majors: map<nat, Major>, minors: map<nat, Minor>, l: Layout, k: nat)
    requires Linked(majors, minors, l) && k < |l|
    ensures l[k].addr in majors && majors[l[k].addr] == MajorOf(l, k)
  {
  }

  lemma GrowKeeps(memRoot: nat, bestBet: nat, allocatedBytes: nat, inUse: nat, bytes: map<nat, int>,
                  majors: map<nat, Major>, minors: map<nat, Minor>, l: Layout, grant: nat, req: nat)
    requires Regions(l) && Linked(majors, minors, l) && Agree(memRoot, bestBet, allocatedBytes, inUse, bytes, l)
    requires grant != 0 && Grantable(l, NewRegion(grant, req))
    ensures var r := NewRegion(grant, req); var m := l + [r]; var last := RegionAddr(l, |l| - 1);
            && (last == 0 <==> l == []) && (last != 0 ==> last in majors && last != grant)
            && Regions(m) && Linked(WithRegion(majors, last, r), minors, m)
            && Agree(if l == [] then grant else memRoot, bestBet, allocatedBytes + Size(r), inUse, bytes, m)
  {
    var r := NewRegion(grant, req);
    var m := l + [r];
    AppendKeepsRegions(l, r);
    RegionsDistinct(m);
    if l != [] { assert m[|l| - 1] == l[|l| - 1] && m[|l|] == r; }
    hide Regions, RegionOk, Grantable, WithRegion, MajorOf, MajorsLinked, MinorsLinked, OnlyBlocks;
    AppendLinked(majors, minors, l, r);
    AppendAgrees(memRoot, bestBet, allocatedBytes, inUse, bytes, l, r);
  }

  lemma AppendAgrees(memRoot: nat, bestBet: nat, allocatedBytes: nat, inUse: nat, bytes: map<nat, int>, l: Layout,
                     r: Region)
    requires Agree(memRoot, bestBet, allocatedBytes, inUse, bytes, l) && r.blocks == []
    ensures Agree(if l == [] then r.addr else memRoot, bestBet, allocatedBytes + Size(r), inUse, bytes, l + [r])
  {
  }

  ghost predicate CrammedBefore(l: Layout, k: nat, need: nat) {
    forall j: nat :: j < k ==> Crammed(l, j, need)
  }

  /** Where the walk stands: at region k of a layout that got at most one region since, all regions
      before k without room unless the walk started at the best bet. */
  ghost predicate Searching(l0: Layout, l: Layout, req: nat, grant: nat, grown: bool, startedBet: bool, k: nat) {
    && k < |l|
    && (if grown then grant != 0 && Full(l0, req) && l == l0 + [NewRegion(grant, req)] && k == |l| - 1 else l == l0)
    && (!startedBet ==> CrammedBefore(l, k, MINOR + req + ALIGNMENT + ALIGN_INFO))
  }

  /** What kmalloc did when it returned p. */
  ghost predicate Allocates(l0: Layout, m: Layout, bytes: map<nat, int>, bytes': map<nat, int>, req: nat, grant: nat,
                            p: nat) {
    && (AllocatedIn(l0, m, req, p)
        || (grant != 0 && Full(l0, req) && AllocatedIn(l0 + [NewRegion(grant, req)], m, req, p)))
    && OnlyByte(bytes, bytes', p - ALIGN_INFO)
  }

  /** A region without room: the walk goes on, starts over, or every region is full. */
  lemma Stuck(l0: Layout, l: Layout, req: nat, grant: nat, grown: bool, startedBet: bool, k: nat)
    requires Searching(l0, l, req, grant, grown, startedBet, k)
    requires Crammed(l, k, MINOR + req + ALIGNMENT + ALIGN_INFO)
    ensures !grown && l == l0 && l != []
    ensures k + 1 < |l| ==> Searching(l0, l, req, grant, false, startedBet, k + 1)
    ensures startedBet ==> Searching(l0, l, req, grant, false, false, 0)
    ensures k + 1 == |l| && !startedBet ==> Full(l0, req) && (grant != 0 ==> AfterGrowth(l0, req, grant))
  {
    var need := MINOR + req + ALIGNMENT + ALIGN_INFO;
    NewRegionFree(l0, grant, req);
    hide FreeEnough;
    if k + 1 == |l| && !startedBet {
      forall j | 0 <= j < |l| ensures NoRoom(l[j], need) { assert Crammed(l, j, need); }
    }
  }

  ghost predicate AfterGrowth(l: Layout, req: nat, grant: nat) {
    && Searching(l, l + [NewRegion(grant, req)], req, grant, true, false, |l|)
    && FreeEnough(l + [NewRegion(grant, req)], |l|, MINOR + req + ALIGNMENT + ALIGN_INFO)
  }

  lemma NewRegionFree(l: Layout, grant: nat, req: nat)
    ensures FreeEnough(l + [NewRegion(grant, req)], |l|, MINOR + req + ALIGNMENT + ALIGN_INFO)
    ensures !Crammed(l + [NewRegion(grant, req)], |l|, MINOR + req + ALIGNMENT + ALIGN_INFO)
  {
    NewRegionHasRoom(grant, req);
    assert Used([]) == 0;
  }

  lemma Found(l0: Layout, bytes: map<nat, int>, bytes': map<nat, int>, m: Layout, l: Layout, req: nat, grant: nat,
              grown: bool, startedBet: bool, k: nat, p: nat)
    requires Searching(l0, l, req, grant, grown, startedBet, k) && Fills(l, m, bytes, bytes', req, p, k)
    ensures Allocates(l0, m, bytes, bytes', req, grant, p)
  {
    var i: nat :| Puts(l, m, bytes, bytes', req, p, k, i)
               && (i > 0 ==> NoneUpTo(l, k, i - 1, MINOR + req + ALIGNMENT + ALIGN_INFO));
    var need := MINOR + req + ALIGNMENT + ALIGN_INFO;
    forall j: nat | j < i ensures !HasRoom(l[k], j, need) {
      assert !RoomAt(l, k, j, need);
    }
    assert AllocatedAt(l, m, req, p, k, i);
    assert AllocatedIn(l, m, req, p);
  }

  lemma RegionFacts(majors: map<nat, Major>, minors: map<nat, Minor>, l: Layout, k: nat, maj: nat, need: nat)
    requires Regions(l) && Linked(majors, minors, l) && AtRegion(l, k, maj)
    ensures maj in majors && majors[maj].usage <= majors[maj].size
    ensures if majors[maj].size - majors[maj].usage < need then Crammed(l, k, need) else FreeEnough(l, k, need)
    ensures if majors[maj].next == 0 then k + 1 == |l| else AtRegion(l, k + 1, majors[maj].next)
  {
    RegionsDistinct(l);
    assert RegionOk(l[k]);
    hide Regions, Linked, Used, RegionOk;
    MajorAt(majors, minors, l, k);
    UsedFits(l[k]);
  }

  lemma BetterBet(memRoot: nat, bestBet: nat, allocatedBytes: nat, inUse: nat, bytes: map<nat, int>, l: Layout,
                  k: nat, maj: nat)
    requires Agree(memRoot, bestBet, allocatedBytes, inUse, bytes, l) && AtRegion(l, k, maj)
    ensures Agree(memRoot, maj, allocatedBytes, inUse, bytes, l)
  {
  }

  lemma RootRegion(memRoot: nat, bestBet: nat, allocatedBytes: nat, inUse: nat, bytes: map<nat, int>, l: Layout)
    requires Regions(l) && Agree(memRoot, bestBet, allocatedBytes, inUse, bytes, l) && l != []
    ensures memRoot != 0 && AtRegion(l, 0, memRoot)
  {
  }

  lemma EmptyHeap(memRoot: nat, bestBet: nat, allocatedBytes: nat, inUse: nat, bytes: map<nat, int>, l: Layout)
    requires Regions(l) && Agree(memRoot, bestBet, allocatedBytes, inUse, bytes, l)
    ensures memRoot == 0 <==> l == []
    ensures l == [] ==> bestBet == 0
  {
  }

  lemma BestRegion(memRoot: nat, bestBet: nat, allocatedBytes: nat, inUse: nat, bytes: map<nat, int>, l: Layout)
    returns (k: nat)
    requires Agree(memRoot, bestBet, allocatedBytes, inUse, bytes, l) && bestBet != 0
    ensures AtRegion(l, k, bestBet)
  {
    k :| k < |l| && l[k].addr == bestBet;
  }

  lemma SearchStarts(l: Layout, req: nat, grant: nat)
    ensures l == [] ==> Full(l, req)
    ensures l == [] && grant != 0 ==> Searching(l, [NewRegion(grant, req)], req, grant, true, false, 0)
    ensures l != [] ==> Searching(l, l, req, grant, false, false, 0)
    ensures forall k: nat :: k < |l| ==> Searching(l, l, req, grant, false, true, k)
  {
  }

  lemma AllocatesKeeps(l0: Layout, m: Layout, bytes: map<nat, int>, bytes': map<nat, int>, req: nat, grant: nat, p: nat)
    requires LayoutOk(l0) && Regions(m) && Allocates(l0, m, bytes, bytes', req, grant, p)
    ensures LayoutOk(m)
  {
  }

  ghost predicate CanUnlink(majors: map<nat, Major>, minors: map<nat, Minor>, min: nat) {
    && min in minors && NullOrIn(minors[min].prev, minors) && NullOrIn(minors[min].next, minors)
    && minors[min].prev != min && minors[min].next != min
    && minors[min].block in majors && MINOR + minors[min].size <= majors[minors[min].block].usage
  }

  lemma UnlinkingKeeps(memRoot: nat, bestBet: nat, allocatedBytes: nat, inUse: nat, bytes: map<nat, int>,
                       majors: map<nat, Major>, minors: map<nat, Minor>, l: Layout, min: nat, k: nat, i: nat)
    requires Regions(l) && Linked(majors, minors, l) && Agree(memRoot, bestBet, allocatedBytes, inUse, bytes, l)
    requires BlockAt(l, min, k, i)
    ensures CanUnlink(majors, minors, min) && minors[min].size <= inUse
    ensures minors[min].block == l[k].addr
    ensures var m := Reduced(l, k, i);
            && Regions(m)
            && Linked(WithoutUsage(majors, l[k].addr, minors[min]), WithoutMinor(minors, min), m)
            && Agree(memRoot, bestBet, allocatedBytes, inUse - minors[min].size, bytes, m)
  {
    hide Regions, Linked, Agree, Reduced, RegionOk;
    HeadersAt(majors, minors, l, k, i);
    LinksDiffer(minors, l, k, i);
    RemoveLinked(majors, minors, l, k, i);
    ReducedAgrees(memRoot, bestBet, allocatedBytes, inUse, bytes, l, k, i);
  }

  lemma LinksDiffer(minors: map<nat, Minor>, l: Layout, k: nat, i: nat)
    requires k < |l| && i < |l[k].blocks| && Regions(l) && MinorsLinked(minors, l[k])
    ensures NullOrIn(BlockAddr(l[k], i - 1), minors) && NullOrIn(BlockAddr(l[k], i + 1), minors)
    ensures BlockAddr(l[k], i - 1) != l[k].blocks[i].addr && BlockAddr(l[k], i + 1) != l[k].blocks[i].addr
  {
    DistinctBlocks(l[k]);
  }

  lemma ReducedAgrees(memRoot: nat, bestBet: nat, allocatedBytes: nat, inUse: nat, bytes: map<nat, int>, l: Layout,
                      k: nat, i: nat)
    requires Regions(l) && Agree(memRoot, bestBet, allocatedBytes, inUse, bytes, l) && k < |l| && i < |l[k].blocks|
    ensures l[k].blocks[i].size <= inUse && Regions(Reduced(l, k, i))
    ensures Agree(memRoot, bestBet, allocatedBytes, inUse - l[k].blocks[i].size, bytes, Reduced(l, k, i))
  {
    var r := l[k].(blocks := RemoveAt(l[k].blocks, i));
    RemoveSums(l[k].blocks, i);
    ReplaceTotals(l, k, r);
    RemoveKeepsRegion(l[k], i);
    ReplaceKeepsRegions(l, k, r);
    hide Regions, RegionOk, TotalSize, TotalPayload, Used, Payloads;
    forall n: nat | n < |l| ensures Reduced(l, k, i)[n].addr == l[n].addr {}
    forall b | IsBlock(Reduced(l, k, i), b) ensures AlignByteRight(bytes, b) {
      ReducedBlocks(l, k, i, b);
    }
  }

  lemma ReducedBlocks(l: Layout, k: nat, i: nat, b: Block)
    requires k < |l| && i < |l[k].blocks| && IsBlock(Reduced(l, k, i), b)
    ensures IsBlock(l, b)
  {
  }

  predicate NullOrMajor(a: nat, majors: map<nat, Major>, but: nat) {
    a == 0 || (a in majors && a != but)
  }

  /** What Retire reads and leaves behind. */
  lemma RetiringKeeps(memRoot: nat, bestBet: nat, allocatedBytes: nat, inUse: nat, bytes: map<nat, int>,
                      majors: map<nat, Major>, minors: map<nat, Minor>, l: Layout, k: nat, maj: nat)
    requires Regions(l) && Linked(majors, minors, l) && Agree(memRoot, bestBet, allocatedBytes, inUse, bytes, l)
    requires AtRegion(l, k, maj)
    ensures maj in majors && majors[maj].pages == l[k].pages && majors[maj].size == Size(l[k]) <= allocatedBytes
    ensures majors[maj].first == 0 <==> l[k].blocks == []
    ensures NullOrMajor(majors[maj].prev, majors, maj) && NullOrMajor(majors[maj].next, majors, maj)
    ensures bestBet != 0 ==> bestBet in majors
    ensures Agree(memRoot, maj, allocatedBytes, inUse, bytes, l)
    ensures l[k].blocks == [] ==>
              var m := RemoveAt(l, k);
              && Regions(m) && Linked(WithoutRegion(majors, maj), minors, m)
              && Agree(if memRoot == maj then majors[maj].next else memRoot, if bestBet == maj then 0 else bestBet,
                       allocatedBytes - Size(l[k]), inUse, bytes, m)
  {
    hide Regions, Linked, Agree, WithoutRegion, RemoveAt, AlignBytes, Used;
    MajorAt(majors, minors, l, k);
    NullIff(l, k, 0);
    RegionNeighbours(majors, minors, l, k);
    BetterBet(memRoot, bestBet, allocatedBytes, inUse, bytes, l, k, maj);
    BestIsMajor(memRoot, bestBet, allocatedBytes, inUse, bytes, majors, minors, l);
    RetiredAgrees(memRoot, bestBet, allocatedBytes, inUse, bytes, l, k);
    if l[k].blocks == [] {
      RegionUnlinked(majors, minors, l, k);
      RemoveKeepsRegions(l, k);
    }
  }

  lemma RegionNeighbours(majors: map<nat, Major>, minors: map<nat, Minor>, l: Layout, k: nat)
    requires Regions(l) && Linked(majors, minors, l) && k < |l|
    ensures NullOrMajor(RegionAddr(l, k - 1), majors, l[k].addr) && NullOrMajor(RegionAddr(l, k + 1), majors, l[k].addr)
  {
    RegionsDistinct(l);
    hide Regions;
    if k > 0 { MajorAt(majors, minors, l, k - 1); }
    if k + 1 < |l| { MajorAt(majors, minors, l, k + 1); }
  }

  lemma BestIsMajor(memRoot: nat, bestBet: nat, allocatedBytes: nat, inUse: nat, bytes: map<nat, int>,
                    majors: map<nat, Major>, minors: map<nat, Minor>, l: Layout)
    requires Linked(majors, minors, l) && Agree(memRoot, bestBet, allocatedBytes, inUse, bytes, l)
    ensures bestBet != 0 ==> bestBet in majors
  {
  }

  lemma RetiredAgrees(memRoot: nat, bestBet: nat, allocatedBytes: nat, inUse: nat, bytes: map<nat, int>, l: Layout,
                      k: nat)
    requires Regions(l) && Agree(memRoot, bestBet, allocatedBytes, inUse, bytes, l) && k < |l|
    ensures Size(l[k]) <= allocatedBytes
    ensures l[k].blocks == [] ==>
              Agree(if memRoot == l[k].addr then RegionAddr(l, k + 1) else memRoot,
                    if bestBet == l[k].addr then 0 else bestBet, allocatedBytes - Size(l[k]), inUse, bytes,
                        RemoveAt(l, k))
  {
    ReplaceTotals(l, k, l[k]);
    RemoveTotals(l, k);
    RegionsDistinct(l);
    hide Regions, TotalSize, TotalPayload, DistinctRegions, AlignBytes, IsRegion, RegionAddr, RemoveAt, Payloads;
    if l[k].blocks == [] {
      RetiredRoot(l, k);
      RetiredBytes(bytes, l, k);
      if bestBet != 0 && bestBet != l[k].addr { RetiredBest(l, k, bestBet); }
    }
  }

  lemma RetiredRoot(l: Layout, k: nat)
    requires DistinctRegions(l) && k < |l| && l[k].blocks == []
    ensures RegionAddr(RemoveAt(l, k), 0) == if RegionAddr(l, 0)
            == l[k].addr then RegionAddr(l, k + 1) else RegionAddr(l, 0)
    ensures Payloads(l[k].blocks) == 0
  {
  }

  lemma RetiredBytes(bytes: map<nat, int>, l: Layout, k: nat)
    requires k < |l| && AlignBytes(bytes, l)
    ensures AlignBytes(bytes, RemoveAt(l, k))
  {
  }

  lemma RetiredBest(l: Layout, k: nat, best: nat)
    requires k < |l| && IsRegion(l, best) && best != l[k].addr
    ensures IsRegion(RemoveAt(l, k), best)
  {
    var n: nat :| n < |l| && l[n].addr == best;
    assert RemoveAt(l, k)[if n < k then n else n - 1].addr == best;
  }

  lemma LiveBlock(majors: map<nat, Major>, minors: map<nat, Minor>, l: Layout, min: nat) returns (k: nat, i: nat)
    requires Linked(majors, minors, l) && min in minors
    ensures BlockAt(l, min, k, i)
  {
    k, i :| BlockAt(l, min, k, i);
  }

  /** The block at address `a` is gone, and its region was given back if that emptied it. */
  ghost predicate Frees(l: Layout, m: Layout, a: nat, back: nat, pages: nat) {
    && FreedIn(l, m, a)
    && if |m| == |l| then back == 0 == pages
       else exists k: nat :: k < |l| && m == RemoveAt(l, k) && back == l[k].addr && pages == l[k].pages
  }

  lemma FreeingKeeps(l: Layout, a: nat, k: nat, i: nat)
    requires LayoutOk(l) && BlockAt(l, a, k, i)
    ensures var r := Reduced(l, k, i);
            && AtRegion(r, k, l[k].addr)
            && (r[k].blocks != [] ==> LayoutOk(r) && Frees(l, r, a, 0, 0))
            && (r[k].blocks == [] ==> LayoutOk(RemoveAt(r, k)) && Frees(l, RemoveAt(r, k), a, l[k].addr, r[k].pages))
  {
    var r := Reduced(l, k, i);
    var m := if |l[k].blocks| == 1 then RemoveAt(l, k) else r;
    assert RemoveAt(r, k) == RemoveAt(l, k);
    assert FreedAt(l, m, a, k, i);
    FreedLayoutOk(l, m, a, k, i);
  }

  /** The first `count` bytes from src are now at dst; nothing else changed. */
  ghost predicate Copied(bytes: map<nat, int>, bytes': map<nat, int>, dst: nat, src: nat, count: nat) {
    forall x: nat :: Byte(bytes', x) == Source(bytes, dst, src, count, x)
  }

  /** The byte that belongs at x after `count` bytes were copied from src to dst. */
  function Source(bytes: map<nat, int>, dst: nat, src: nat, count: nat, x: nat): int {
    if dst <= x < dst + count then Byte(bytes, src + (x - dst)) else Byte(bytes, x)
  }

  lemma CopyNone(bytes: map<nat, int>, dst: nat, src: nat)
    ensures Copied(bytes, bytes, dst, src, 0)
  {
  }

  lemma CopyOne(bytes0: map<nat, int>, bytes: map<nat, int>, dst: nat, src: nat, done: nat, count: nat)
    requires (dst + count <= src || src + count <= dst) && done < count && Copied(bytes0, bytes, dst, src, done)
    ensures Copied(bytes0, bytes[dst + done := Byte(bytes, src + done)], dst, src, done + 1)
  {
    var bytes' := bytes[dst + done := Byte(bytes, src + done)];
    forall x: nat
      ensures Byte(bytes', x) == Source(bytes0, dst, src, done + 1, x)
    {
      if x == dst + done {
        assert Byte(bytes, src + done) == Source(bytes0, dst, src, done, src + done);
      } else {
        assert Byte(bytes', x) == Byte(bytes, x);
      }
    }
  }

  ghost function Shrunk(l: Layout, k: nat, i: nat, req: nat): Layout
    requires k < |l| && i < |l[k].blocks|
  {
    l[k := l[k].(blocks := l[k].blocks[i := l[k].blocks[i].(req := req)])]
  }

  lemma {:induction false} SameSums(s: seq<Block>, i: nat, req: nat)
    requires i < |s|
    ensures Used(s[i := s[i].(req := req)]) == Used(s) && Payloads(s[i := s[i].(req := req)]) == Payloads(s)
  {
    var t := s[i := s[i].(req := req)];
    if i == |s| - 1 {
      assert t[..|t| - 1] == s[..|s| - 1];
    } else {
      assert t[..|t| - 1] == s[..|s| - 1][i := s[i].(req := req)];
      SameSums(s[..|s| - 1], i, req);
    }
  }

  lemma ShrunkAddr(l: Layout, k: nat, i: nat, req: nat, n: nat, j: int)
    requires k < |l| && i < |l[k].blocks| && n < |l|
    ensures BlockAddr(Shrunk(l, k, i, req)[n], j) == BlockAddr(l[n], j)
    ensures RegionAddr(Shrunk(l, k, i, req), j) == RegionAddr(l, j)
  {
  }

  lemma ShrunkMajor(l: Layout, k: nat, i: nat, req: nat, n: nat)
    requires k < |l| && i < |l[k].blocks| && n < |l|
    ensures |Shrunk(l, k, i, req)| == |l| && Shrunk(l, k, i, req)[n].addr == l[n].addr
    ensures MajorOf(Shrunk(l, k, i, req), n) == MajorOf(l, n)
  {
    SameSums(l[k].blocks, i, req);
    ShrunkAddr(l, k, i, req, n, 0);
    ShrunkAddr(l, k, i, req, n, n - 1);
    ShrunkAddr(l, k, i, req, n, n + 1);
    hide BlockAddr, RegionAddr, Used;
  }

  lemma ShrunkMajors(majors: map<nat, Major>, l: Layout, k: nat, i: nat, req: nat)
    requires k < |l| && i < |l[k].blocks| && MajorsLinked(majors, l)
    ensures MajorsLinked(majors, Shrunk(l, k, i, req))
  {
    hide MajorOf, Shrunk;
    ShrunkMajor(l, k, i, req, k);
    forall n: nat | n < |l|
      ensures Shrunk(l, k, i, req)[n].addr == l[n].addr && MajorOf(Shrunk(l, k, i, req), n) == MajorOf(l, n)
    {
      ShrunkMajor(l, k, i, req, n);
    }
  }

  lemma ShrunkMinor(minors: map<nat, Minor>, l: Layout, k: nat, i: nat, req: nat, n: nat, j: nat)
    requires k < |l| && i < |l[k].blocks| && n < |l| && j < |l[n].blocks| && l[k].blocks[i].addr in minors
    requires MinorsLinked(minors, l[n]) && ((n, j) != (k, i) ==> l[n].blocks[j].addr != l[k].blocks[i].addr)
    ensures var m := Shrunk(l, k, i,
            req); var a := l[k].blocks[i].addr; var minors' := minors[a := minors[a].(req := req)];
            m[n].blocks[j].addr in minors' && minors'[m[n].blocks[j].addr] == MinorOf(m[n], j)
  {
  }

  lemma ShrunkOnly(minors: map<nat, Minor>, l: Layout, k: nat, i: nat, req: nat, x: nat)
    requires k < |l| && i < |l[k].blocks| && OnlyBlocks(minors, l) && x in minors
    ensures exists n: nat, j: nat :: BlockAt(Shrunk(l, k, i, req), x, n, j)
  {
    var n: nat, j: nat :| BlockAt(l, x, n, j);
    assert BlockAt(Shrunk(l, k, i, req), x, n, j);
  }

  lemma ShrunkLinked(majors: map<nat, Major>, minors: map<nat, Minor>, l: Layout, k: nat, i: nat, req: nat)
    requires Regions(l) && Linked(majors, minors, l) && k < |l| && i < |l[k].blocks|
    ensures l[k].blocks[i].addr in minors
    ensures var a := l[k].blocks[i].addr; Linked(majors, minors[a := minors[a].(req := req)], Shrunk(l, k, i, req))
  {
    hide Regions, MinorsLinked, MajorsLinked, OnlyBlocks, Shrunk, MinorOf;
    HeadersAt(majors, minors, l, k, i);
    ShrunkMajors(majors, l, k, i, req);
    var a := l[k].blocks[i].addr;
    ShrunkAllMinors(minors, l, k, i, req);
  }

  lemma ShrunkAllMinors(minors: map<nat, Minor>, l: Layout, k: nat, i: nat, req: nat)
    requires Regions(l) && k < |l| && i < |l[k].blocks| && l[k].blocks[i].addr in minors && OnlyBlocks(minors, l)
    requires forall n :: 0 <= n < |l| ==> MinorsLinked(minors, l[n])
    ensures var a := l[k].blocks[i].addr; var minors' := minors[a := minors[a].(req := req)];
            && |Shrunk(l, k, i, req)| == |l| && OnlyBlocks(minors', Shrunk(l, k, i, req))
            && forall n :: 0 <= n < |l| ==> MinorsLinked(minors', Shrunk(l, k, i, req)[n])
  {
    var a := l[k].blocks[i].addr;
    var minors' := minors[a := minors[a].(req := req)];
    var m := Shrunk(l, k, i, req);
    forall x | x in minors' ensures exists n: nat, j: nat :: BlockAt(m, x, n, j) {
      hide BlockAt, OnlyBlocks, Shrunk, MinorsLinked, Regions;
      ShrunkOnly(minors, l, k, i, req, x);
    }
    forall n: nat | n < |l| ensures MinorsLinked(minors', m[n]) {
      forall j: nat | j < |m[n].blocks|
        ensures m[n].blocks[j].addr in minors' && minors'[m[n].blocks[j].addr] == MinorOf(m[n], j)
      {
        AllApart(l, n, j, k, i);
        hide MinorOf, Regions, MinorsLinked;
        ShrunkMinor(minors, l, k, i, req, n, j);
      }
    }
  }

  lemma ShrunkAgrees(memRoot: nat, bestBet: nat, allocatedBytes: nat, inUse: nat, bytes: map<nat, int>, l: Layout,
                     k: nat, i: nat, req: nat)
    requires Agree(memRoot, bestBet, allocatedBytes, inUse, bytes, l) && k < |l| && i < |l[k].blocks|
    ensures Agree(memRoot, bestBet, allocatedBytes, inUse, bytes, Shrunk(l, k, i, req))
  {
    var r := l[k].(blocks := l[k].blocks[i := l[k].blocks[i].(req := req)]);
    SameSums(l[k].blocks, i, req);
    ReplaceTotals(l, k, r);
    var m := Shrunk(l, k, i, req);
    forall n: nat | n < |l| ensures m[n].addr == l[n].addr {}
    forall b | IsBlock(m, b) ensures AlignByteRight(bytes, b) {
      var n, j :| 0 <= n < |m| && 0 <= j < |m[n].blocks| && m[n].blocks[j] == b;
      assert IsBlock(l, l[n].blocks[j]);
      assert AlignByteRight(bytes, l[n].blocks[j]);
    }
  }

  /** What krealloc did to a live block b, seen from its result. */
  ghost predicate Reallocates(l: Layout, m: Layout, bytes: map<nat, int>, bytes': map<nat, int>, b: Block, size: nat,
                              grant: nat, q: nat, crashed: bool) {
    if size <= b.req then
      q == PayloadStart(b) && !crashed && ShrunkIn(l, m, b.addr, size) && bytes' == bytes
    else if q == 0 then
      && grant == 0 && Full(l, size) && bytes' == bytes
      && if b.req > 0 then crashed && m == l else !crashed && FreedIn(l, m, b.addr)
    else
      !crashed && Moves(l, m, bytes, bytes', b, size, grant, q)
  }

  /** A new block was allocated, the old bytes were copied, the old block was freed. */
  ghost predicate Moves(l: Layout, m: Layout, bytes: map<nat, int>, bytes': map<nat, int>, b: Block, size: nat,
                        grant: nat, q: nat) {
    exists l1, bytes1 :: MovesVia(l, m, bytes, bytes', b, size, grant, q, l1, bytes1)
  }

  ghost predicate MovesVia(l: Layout, m: Layout, bytes: map<nat, int>, bytes': map<nat, int>, b: Block, size: nat,
                           grant: nat, q: nat, l1: Layout, bytes1: map<nat, int>) {
    && Allocates(l, l1, bytes, bytes1, size, grant, q)
    && Copied(bytes1, bytes', q, PayloadStart(b), b.req)
    && FreedIn(l1, m, b.addr)
  }

  lemma FreesMeans(l: Layout, m: Layout, a: nat, back: nat, pages: nat)
    ensures Frees(l, m, a, back, pages) ==> FreedIn(l, m, a)
  {
  }

  lemma SameBlock(l: Layout, b: Block, c: Block)
    requires Regions(l) && IsBlock(l, b) && IsBlock(l, c)
    ensures b == c || BlocksApart(b, c)
  {
    var k, i :| 0 <= k < |l| && 0 <= i < |l[k].blocks| && l[k].blocks[i] == b;
    var n, j :| 0 <= n < |l| && 0 <= j < |l[n].blocks| && l[n].blocks[j] == c;
    AllApart(l, k, i, n, j);
  }

  lemma LiveMinor(majors: map<nat, Major>, minors: map<nat, Minor>, l: Layout, b: Block)
    requires Linked(majors, minors, l) && IsBlock(l, b)
    ensures b.addr in minors && minors[b.addr].req == b.req
  {
    var k, i :| 0 <= k < |l| && 0 <= i < |l[k].blocks| && l[k].blocks[i] == b;
    HeadersAt(majors, minors, l, k, i);
    hide Linked;
  }

  lemma BlockBelowTop(l: Layout, b: Block)
    requires Regions(l) && IsBlock(l, b)
    ensures PayloadStart(b) < WORD
  {
    var k, i :| 0 <= k < |l| && 0 <= i < |l[k].blocks| && l[k].blocks[i] == b;
    BlockInside(l[k], i);
  }

  /** The pointer of a live block leads to its header. */
  lemma LiveHeader(bytes: map<nat, int>, majors: map<nat, Major>, minors: map<nat, Minor>, l: Layout, b: Block)
    requires Regions(l) && Linked(majors, minors, l) && AlignBytes(bytes, l) && IsBlock(l, b)
    ensures HeaderOf(bytes, PayloadStart(b)) == b.addr && 0 < PayloadStart(b) < WORD
    ensures b.addr in minors && minors[b.addr].req == b.req
  {
    hide Regions, Linked, AlignBytes, IsBlock, HeaderOf;
    HeaderOfPointer(bytes, l, b);
    BlockBelowTop(l, b);
    LiveMinor(majors, minors, l, b);
  }

  lemma ShrunkLayoutOk(l: Layout, a: nat, k: nat, i: nat, req: nat)
    requires LayoutOk(l) && BlockAt(l, a, k, i) && req <= l[k].blocks[i].req
    ensures LayoutOk(Shrunk(l, k, i, req)) && ShrunkIn(l, Shrunk(l, k, i, req), a, req)
  {
    assert ShrunkAt(l, Shrunk(l, k, i, req), a, req, k, i);
    ShrinkingIsLocal(l, Shrunk(l, k, i, req), a, req);
  }

  lemma MoveFacts(l: Layout, b: Block, nb: Block, count: nat)
    requires Regions(l) && IsBlock(l, b) && IsBlock(l, nb) && b.addr != nb.addr && count <= b.req && count <= nb.req
    ensures PayloadStart(nb) + count <= PayloadStart(b) || PayloadStart(b) + count <= PayloadStart(nb)
  {
    SameBlock(l, b, nb);
    SlackOf(l, b);
    SlackOf(l, nb);
    AlignRoundTrip(b);
    AlignRoundTrip(nb);
  }

  /** Writing into the payload of one block leaves all alignment bytes alone. */
  lemma CopyKeepsBytes(bytes: map<nat, int>, bytes': map<nat, int>, l: Layout, nb: Block, src: nat, count: nat)
    requires Regions(l) && AlignBytes(bytes, l) && IsBlock(l, nb) && count <= nb.req
    requires Copied(bytes, bytes', PayloadStart(nb), src, count)
    ensures AlignBytes(bytes', l)
  {
    SlackOf(l, nb);
    AlignRoundTrip(nb);
    forall c | IsBlock(l, c) ensures AlignByteRight(bytes', c) {
      SameBlock(l, nb, c);
      SlackOf(l, c);
      AlignRoundTrip(c);
      hide Regions, IsBlock;
      var x := PayloadStart(c) - ALIGN_INFO;
      assert Byte(bytes', x) == Source(bytes, PayloadStart(nb), src, count, x);
      assert AlignByteRight(bytes, c);
    }
  }

  lemma AgreeWithBytes(memRoot: nat, bestBet: nat, allocatedBytes: nat, inUse: nat, bytes: map<nat, int>,
                       bytes': map<nat, int>, l: Layout)
    requires Agree(memRoot, bestBet, allocatedBytes, inUse, bytes, l)
    ensures AlignBytes(bytes, l)
    ensures AlignBytes(bytes', l) ==> Agree(memRoot, bestBet, allocatedBytes, inUse, bytes', l)
  {
  }

  class Heap {
    var memRoot: nat
    var bestBet: nat
    var allocatedBytes: nat
    var inUse: nat
    var warnings: nat
    var errors: nat
    var majors: map<nat, Major>
    var minors: map<nat, Minor>
    var bytes: map<nat, int>
    ghost var layout: Layout

    /** The headers, the totals and the alignment bytes agree with the layout. */
    ghost predicate Shape()
      reads this
    {
      && Regions(layout) && Linked(majors, minors, layout)
      && Agree(memRoot, bestBet, allocatedBytes, inUse, bytes, layout)
    }

    ghost predicate Valid()
      reads this
    {
      Shape() && LayoutOk(layout)
    }

    constructor ()
      ensures Valid() && layout == [] && warnings == 0 && errors == 0
    {
      memRoot, bestBet, allocatedBytes, inUse, warnings, errors := 0, 0, 0, 0, 0, 0;
      majors, minors, bytes, layout := map[], map[], map[], [];
    }

    /** The header writes of the four placing cases: a block at `at` between the headers `prev` and
        `next` (either may be null) of region `maj`. */
    method Link(maj: nat, prev: nat, next: nat, at: nat, size: nat, req: nat)
      requires maj in majors && NullOrIn(prev, minors) && NullOrIn(next, minors)
      modifies this`majors, this`minors
      ensures minors == LinkedIn(old(minors), maj, prev, next, at, size, req)
      ensures majors == Charged(old(majors), maj, prev, at, size)
    {
      minors := minors[at := Minor(prev, next, maj, MAGIC, size, req)];
      if prev == 0 {
        majors := majors[maj := majors[maj].(first := at)];
      } else {
        minors := minors[prev := minors[prev].(next := at)];
      }
      if next != 0 {
        minors := minors[next := minors[next].(prev := at)];
      }
      majors := majors[maj := majors[maj].(usage := majors[maj].usage + size + MINOR)];
    }

    /** Links a block in as block i of region k, counts its bytes and aligns its pointer. */
    method Place(ghost k: nat, ghost i: nat, maj: nat, prev: nat, next: nat, at: nat, size: nat, req: nat)
      returns (p: nat)
      requires Shape() && AtGap(layout, k, i, maj, prev, next, at, size, req)
      modifies this`majors, this`minors, this`inUse, this`bytes, this`layout
      ensures Shape() && Puts(old(layout), layout, old(bytes), bytes, req, p, k, i) && p != 0
    {
      hide Regions, Linked, Agree, LinkedIn, Charged, Grown, AtGap, Puts, NullOrIn;
      PlacingKeeps(memRoot, bestBet, allocatedBytes, inUse, bytes, majors, minors, layout, k, i, maj, prev, next, at,
                   size, req);
      Link(maj, prev, next, at, size, req);
      inUse := inUse + size;
      p := Aligned(at + MINOR);
      bytes := bytes[p - ALIGN_INFO := p - (at + MINOR)];
      layout := Grown(layout, k, i, Block(at, size, req));
    }

    /** CASE 4 for one header: the space behind block i, before the next block (4.2) or the end of
        the region (4.1). */
    method PlaceAfter(ghost k: nat, ghost i: nat, maj: nat, min: nat, size: nat, req: nat) returns (p: nat)
      requires Shape() && AtBlock(layout, k, i, maj, min) && size == req + ALIGNMENT + ALIGN_INFO
      modifies this`majors, this`minors, this`inUse, this`bytes, this`layout
      ensures Shape()
      ensures p == 0 ==> unchanged(this) && !RoomAt(layout, k, i + 1, MINOR + size)
      ensures p != 0 ==> Puts(old(layout), layout, old(bytes), bytes, req, p, k, i + 1)
    {
      hide Regions, Linked, Agree, AtBlock, AtGap, Puts, RoomAt;
      BehindBlock(majors, minors, layout, k, i, maj, min, size, req);
      var next := minors[min].next;
      if next == 0 {
        var diff := maj + majors[maj].size - min - MINOR - minors[min].size;
        if diff >= size + MINOR {
          p := Place(k, i + 1, maj, min, 0, min + MINOR + minors[min].size, size, req);
          return;
        }
      }
      if next != 0 {
        var diff := next - min - MINOR - minors[min].size;
        if diff >= size + MINOR {
          p := Place(k, i + 1, maj, min, next, min + MINOR + minors[min].size, size, req);
          return;
        }
      }
      return 0;
    }

    /** CASE 4: the space behind each block of region k in turn. */
    method PlaceBehind(ghost k: nat, maj: nat, size: nat, req: nat) returns (p: nat)
      requires Shape() && AtRegion(layout, k, maj) && size == req + ALIGNMENT + ALIGN_INFO
      requires NoneUpTo(layout, k, 0, MINOR + size)
      modifies this`majors, this`minors, this`inUse, this`bytes, this`layout
      ensures Shape()
      ensures p == 0 ==> unchanged(this) && Crammed(layout, k, MINOR + size)
      ensures p != 0 ==> Fills(old(layout), layout, old(bytes), bytes, req, p, k)
    {
      hide Regions, Linked, Agree, AtBlock, Puts, NoneUpTo, RoomAt, Crammed;
      FirstHeader(majors, minors, layout, k, maj, MINOR + size);
      var min := majors[maj].first;
      ghost var i: nat := 0;
      while min != 0
        invariant Shape() && unchanged(this)
        invariant AtRegion(layout, k, maj) && NoneUpTo(layout, k, i, MINOR + size)
        invariant if min == 0 then Crammed(layout, k, MINOR + size) else AtBlock(layout, k, i, maj, min)
        decreases |layout[k].blocks| - i
      {
        NextHeader(majors, minors, layout, k, i, maj, min, MINOR + size);
        p := PlaceAfter(k, i, maj, min, size, req);
        if p != 0 { return; }
        min := minors[min].next;
        i := i + 1;
      }
      return 0;
    }

    /** CASES 2 to 4: region k has enough free bytes; is there a gap? */
    method PlaceIn(ghost k: nat, maj: nat, size: nat, req: nat) returns (p: nat)
      requires Shape() && AtRegion(layout, k, maj) && size == req + ALIGNMENT + ALIGN_INFO
      requires FreeEnough(layout, k, MINOR + size)
      modifies this`majors, this`minors, this`inUse, this`bytes, this`layout
      ensures Shape()
      ensures p == 0 ==> unchanged(this) && Crammed(layout, k, MINOR + size)
      ensures p != 0 ==> Fills(old(layout), layout, old(bytes), bytes, req, p, k)
    {
      hide Regions, Linked, Agree, AtGap, Puts, NoneUpTo, Crammed, FreeEnough;
      FrontGap(majors, minors, layout, k, maj, size, req);
      if majors[maj].first == 0 {
        p := Place(k, 0, maj, 0, 0, maj + MAJOR, size, req);
        return;
      }
      var diff := majors[maj].first - maj - MAJOR;
      if diff >= size + MINOR {
        p := Place(k, 0, maj, 0, majors[maj].first, maj + MAJOR, size, req);
        return;
      }
      p := PlaceBehind(k, maj, size, req);
    }

    /** allocate_new_page: `grant` is the answer of the page source, 0 when it has no pages. */
    method AllocateNewPage(size: nat, grant: nat) returns (maj: nat)
      requires size + MAJOR + MINOR <= MAX_PAGES * PAGE_SIZE
      modifies this`majors, this`allocatedBytes, this`warnings
      ensures maj == grant
      ensures grant == 0 ==> unchanged(this`majors) && unchanged(this`allocatedBytes) && warnings == old(warnings) + 1
      ensures grant != 0 ==>
                allocatedBytes == old(allocatedBytes) + PagesFor(size) * PAGE_SIZE && unchanged(this`warnings)
      ensures grant != 0 ==> majors == old(majors)[maj := Major(0, 0, PagesFor(size), PagesFor(size) * PAGE_SIZE,
              MAJOR, 0)]
    {
      var st := size + MAJOR;
      st := st + MINOR;
      if st % PAGE_SIZE == 0 {
        st := st / PAGE_SIZE;
      } else {
        st := st / PAGE_SIZE + 1;
      }
      if st < PAGE_COUNT {
        st := PAGE_COUNT;
      }
      assert st <= MAX_PAGES;
      maj := grant;
      if maj == 0 {
        warnings := warnings + 1;
        return 0;
      }
      majors := majors[maj := Major(0, 0, st, st * PAGE_SIZE, MAJOR, 0)];
      allocatedBytes := allocatedBytes + st * PAGE_SIZE;
    }

    /** A new region behind the last one, `maj`. */
    method Grow(maj: nat, size: nat, grant: nat, ghost req: nat) returns (next: nat)
      requires Shape() && layout != [] && AtRegion(layout, |layout| - 1, maj)
      requires size == req + ALIGNMENT + ALIGN_INFO && req <= MAX_REQUEST
      requires grant == 0 || Grantable(layout, NewRegion(grant, req))
      modifies this`majors, this`allocatedBytes, this`warnings, this`layout
      ensures Shape() && next == grant
      ensures grant == 0 ==> unchanged(this`majors) && unchanged(this`allocatedBytes) && unchanged(this`layout)
      ensures grant != 0 ==> layout == old(layout) + [NewRegion(grant, req)]
    {
      hide Regions, Linked, Agree, Grantable;
      if grant != 0 {
        GrowKeeps(memRoot, bestBet, allocatedBytes, inUse, bytes, majors, minors, layout, grant, req);
      }
      next := AllocateNewPage(size, grant);
      if next == 0 { return; }
      majors := majors[maj := majors[maj].(next := next)];
      majors := majors[next := majors[next].(prev := maj)];
      assert majors == WithRegion(old(majors), maj, NewRegion(grant, req));
      layout := layout + [NewRegion(grant, req)];
    }

    /** The walk over the regions.  `l0` is the layout kmalloc found, `grown` whether a region was
        added since. */
    method Search(start: nat, bet: bool, best: nat, size: nat, req: nat, grant: nat,
                  ghost l0: Layout, ghost k0: nat, ghost grown0: bool) returns (p: nat)
      requires Shape() && start != 0 && AtRegion(layout, k0, start) && size == req + ALIGNMENT + ALIGN_INFO
               && req <= MAX_REQUEST
      requires grant == 0 || Grantable(l0, NewRegion(grant, req))
      requires Searching(l0, layout, req, grant, grown0, bet, k0)
      modifies this
      ensures Shape()
      ensures p == 0 ==> grant == 0 && Full(l0, req) && layout == l0 && bytes == old(bytes) && errors == old(errors)
      ensures p != 0 ==> Allocates(l0, layout, old(bytes), bytes, req, grant, p) && errors == old(errors)
    {
      hide Regions, Linked, Agree, Grantable, Searching, Fills, Crammed, FreeEnough, Full, Allocates;
      var maj, startedBet, bestSize := start, bet, best;
      ghost var k, grown := k0, grown0;
      while maj != 0
        invariant maj != 0 && Shape() && AtRegion(layout, k, maj) && bytes == old(bytes) && errors == old(errors)
        invariant Searching(l0, layout, req, grant, grown, startedBet, k)
        decreases !grown, startedBet, |layout| - k
      {
        RegionFacts(majors, minors, layout, k, maj, MINOR + size);
        var diff := majors[maj].size - majors[maj].usage;
        if bestSize < diff {
          BetterBet(memRoot, bestBet, allocatedBytes, inUse, bytes, layout, k, maj);
          bestBet := maj;
          bestSize := diff;
        }
        if diff < size + MINOR {
          Stuck(l0, layout, req, grant, grown, startedBet, k);
          if majors[maj].next != 0 {
            maj := majors[maj].next;
            k := k + 1;
            continue;
          }
          if startedBet {
            RootRegion(memRoot, bestBet, allocatedBytes, inUse, bytes, layout);
            maj := memRoot;
            startedBet := false;
            k := 0;
            continue;
          }
          var next := Grow(maj, size, grant, req);
          if next == 0 { break; }
          maj := next;
          k := k + 1;
          grown := true;
        }
        ghost var was := layout;
        p := PlaceIn(k, maj, size, req);
        if p != 0 {
          Found(l0, old(bytes), bytes, layout, was, req, grant, grown, startedBet, k, p);
          return;
        }
        Stuck(l0, layout, req, grant, grown, startedBet, k);
        if majors[maj].next == 0 {
          if startedBet {
            RootRegion(memRoot, bestBet, allocatedBytes, inUse, bytes, layout);
            maj := memRoot;
            startedBet := false;
            k := 0;
            continue;
          }
          var next := Grow(maj, size, grant, req);
          if next == 0 { break; }
          grown := true;
          RegionFacts(majors, minors, layout, k, maj, MINOR + size);
        }
        maj := majors[maj].next;
        k := k + 1;
      }
      return 0;
    }

    /** The first region of an empty heap. */
    method InitRoot(size: nat, grant: nat, ghost req: nat)
      requires Shape() && memRoot == 0 && size == req + ALIGNMENT + ALIGN_INFO && req <= MAX_REQUEST
      requires grant == 0 || Grantable(layout, NewRegion(grant, req))
      modifies this`memRoot, this`majors, this`allocatedBytes, this`warnings, this`layout
      ensures Shape() && memRoot == grant && old(layout) == []
      ensures grant == 0 ==> unchanged(this`majors) && unchanged(this`allocatedBytes) && layout == []
      ensures grant != 0 ==> layout == [NewRegion(grant, req)]
    {
      hide Regions, Linked, Agree, Grantable;
      EmptyHeap(memRoot, bestBet, allocatedBytes, inUse, bytes, layout);
      if grant != 0 {
        GrowKeeps(memRoot, bestBet, allocatedBytes, inUse, bytes, majors, minors, layout, grant, req);
        assert layout + [NewRegion(grant, req)] == [NewRegion(grant, req)];
      }
      memRoot := AllocateNewPage(size, grant);
      if memRoot == 0 { return; }
      assert majors == WithRegion(old(majors), 0, NewRegion(grant, req));
      layout := [NewRegion(grant, req)];
    }

    /** kmalloc.  It puts the block into the first gap with room of some region, or of a new region
        when no region has room; it fails only when it needs new pages and gets none. */
    method Kmalloc(req: nat, grant: nat) returns (p: nat)
      requires Valid() && req <= MAX_REQUEST && (grant == 0 || Grantable(layout, NewRegion(grant, req)))
      modifies this
      ensures Valid()
      ensures p == 0 ==> grant == 0 && Full(old(layout), req) && layout == old(layout) && bytes == old(bytes)
      ensures p != 0 ==> Allocates(old(layout), layout, old(bytes), bytes, req, grant, p)
      ensures errors == old(errors)
    {
      hide Regions, Linked, Agree, Grantable, LayoutOk, Allocates, Searching, Full;
      var size := req + ALIGNMENT + ALIGN_INFO;
      ghost var l0, k0, grown := layout, 0, false;
      SearchStarts(l0, req, grant);
      EmptyHeap(memRoot, bestBet, allocatedBytes, inUse, bytes, layout);
      if memRoot == 0 {
        InitRoot(size, grant, req);
        if memRoot == 0 { return 0; }
        grown := true;
      }
      RootRegion(memRoot, bestBet, allocatedBytes, inUse, bytes, layout);
      var maj, startedBet, bestSize := memRoot, false, 0;
      if bestBet != 0 {
        ghost var n := BestRegion(memRoot, bestBet, allocatedBytes, inUse, bytes, layout);
        RegionFacts(majors, minors, layout, n, bestBet, 0);
        bestSize := majors[bestBet].size - majors[bestBet].usage;
        if bestSize > size + MINOR {
          maj := bestBet;
          startedBet := true;
          k0 := n;
        }
      }
      p := Search(maj, startedBet, bestSize, size, req, grant, l0, k0, grown);
      if p != 0 {
        AllocatesKeeps(l0, layout, old(bytes), bytes, req, grant, p);
      }
    }

    /** The first half of kfree: the header leaves its list and its region. */
    method Unlink(min: nat) returns (maj: nat)
      requires CanUnlink(majors, minors, min) && minors[min].size <= inUse
      modifies this`majors, this`minors, this`inUse
      ensures maj == old(minors)[min].block
      ensures minors == WithoutMinor(old(minors), min)
      ensures majors == WithoutUsage(old(majors), maj, old(minors)[min])
      ensures inUse == old(inUse) - old(minors)[min].size
    {
      maj := minors[min].block;
      inUse := inUse - minors[min].size;
      majors := majors[maj := majors[maj].(usage := majors[maj].usage - (minors[min].size + MINOR))];
      var prev, next := minors[min].prev, minors[min].next;
      if next != 0 {
        minors := minors[next := minors[next].(prev := prev)];
      }
      if prev != 0 {
        minors := minors[prev := minors[prev].(next := next)];
      }
      if prev == 0 {
        majors := majors[maj := majors[maj].(first := next)];
      }
      minors := minors - {min};
    }

    /** Takes an emptied region off the list. */
    method UnlinkRegion(maj: nat)
      requires maj in majors && majors[maj].size <= allocatedBytes
      requires NullOrMajor(majors[maj].prev, majors, maj) && NullOrMajor(majors[maj].next, majors, maj)
      modifies this`memRoot, this`bestBet, this`allocatedBytes, this`majors
      ensures majors == WithoutRegion(old(majors), maj)
      ensures memRoot == if old(memRoot) == maj then old(majors)[maj].next else old(memRoot)
      ensures bestBet == if old(bestBet) == maj then 0 else old(bestBet)
      ensures allocatedBytes == old(allocatedBytes) - old(majors)[maj].size
    {
      var prev, next := majors[maj].prev, majors[maj].next;
      if memRoot == maj { memRoot := next; }
      if bestBet == maj { bestBet := 0; }
      if prev != 0 { majors := majors[prev := majors[prev].(next := next)]; }
      if next != 0 { majors := majors[next := majors[next].(prev := prev)]; }
      allocatedBytes := allocatedBytes - majors[maj].size;
      majors := majors - {maj};
    }

    /** The second half of kfree: an emptied region leaves the list and goes back to the page
        source; any other may become the best bet. */
    method Retire(ghost k: nat, maj: nat) returns (back: nat, pages: nat)
      requires Shape() && AtRegion(layout, k, maj)
      modifies this`memRoot, this`bestBet, this`allocatedBytes, this`majors, this`layout
      ensures Shape()
      ensures if old(layout)[k].blocks != [] then layout == old(layout) && back == 0 == pages
              else layout == RemoveAt(old(layout), k) && back == maj && pages == old(layout)[k].pages
    {
      hide Regions, Linked, Agree, WithoutRegion, RemoveAt, NullOrMajor;
      RetiringKeeps(memRoot, bestBet, allocatedBytes, inUse, bytes, majors, minors, layout, k, maj);
      if majors[maj].first == 0 {
        back, pages := maj, majors[maj].pages;
        UnlinkRegion(maj);
        layout := RemoveAt(layout, k);
      } else {
        back, pages := 0, 0;
        if bestBet != 0 {
          var bestSize := majors[bestBet].size - majors[bestBet].usage;
          var majSize := majors[maj].size - majors[maj].usage;
          if majSize > bestSize { bestBet := maj; }
        }
      }
    }

    /** kfree.  `back` and `pages` are the region given back to the page source, if any. */
    method Kfree(ptr: nat) returns (back: nat, pages: nat)
      requires Valid() && ptr < WORD
      modifies this`memRoot, this`bestBet, this`allocatedBytes, this`inUse, this`majors, this`minors, this`layout,
               this`warnings, this`errors
      ensures Valid()
      ensures warnings == old(warnings) + if ptr == 0 then 1 else 0
      ensures errors == old(errors) + if ptr != 0 && HeaderOf(bytes, ptr) !in old(minors) then 1 else 0
      ensures ptr == 0 || HeaderOf(bytes, ptr) !in old(minors) ==> layout == old(layout) && back == 0
      ensures ptr != 0 && HeaderOf(bytes, ptr) in old(minors)
              ==> Frees(old(layout), layout, HeaderOf(bytes, ptr), back, pages)
    {
      hide Regions, Linked, Agree, WithoutMinor, WithoutUsage, CanUnlink, Reduced, LayoutOk, FreedIn, Frees;
      back, pages := 0, 0;
      if ptr == 0 {
        warnings := warnings + 1;
        return;
      }
      var p := Unaligned(ptr, Byte(bytes, (ptr + WORD - ALIGN_INFO) % WORD));
      var min := (p + WORD - MINOR) % WORD;
      if min !in minors {
        errors := errors + 1;
        return;
      }
      ghost var k, i := LiveBlock(majors, minors, layout, min);
      UnlinkingKeeps(memRoot, bestBet, allocatedBytes, inUse, bytes, majors, minors, layout, min, k, i);
      ghost var l := layout;
      FreeingKeeps(l, min, k, i);
      var maj := Unlink(min);
      layout := Reduced(layout, k, i);
      back, pages := Retire(k, maj);
    }

    /** liballoc_memcpy: by words of four bytes, then by bytes. */
    method Copy(dst: nat, src: nat, count: nat)
      requires dst + count <= src || src + count <= dst
      modifies this`bytes
      ensures Copied(old(bytes), bytes, dst, src, count)
    {
      hide Copied;
      CopyNone(bytes, dst, src);
      var done: nat := 0;
      while count - done >= 4
        invariant done <= count && Copied(old(bytes), bytes, dst, src, done)
        decreases count - done
      {
        ghost var start := done;
        for i := 0 to 4
          invariant done == start + i && Copied(old(bytes), bytes, dst, src, done)
        {
          CopyOne(old(bytes), bytes, dst, src, done, count);
          bytes := bytes[dst + done := Byte(bytes, src + done)];
          done := done + 1;
        }
      }
      while done < count
        invariant done <= count && Copied(old(bytes), bytes, dst, src, done)
      {
        CopyOne(old(bytes), bytes, dst, src, done, count);
        bytes := bytes[dst + done := Byte(bytes, src + done)];
        done := done + 1;
      }
    }

    /** krealloc's answer when the request of a live block gets smaller. */
    method Shrink(min: nat, size: nat)
      requires Valid() && min in minors && size <= minors[min].req
      modifies this`minors, this`layout
      ensures Valid() && ShrunkIn(old(layout), layout, min, size)
    {
      hide Regions, Linked, Agree, Shrunk, ShrunkIn, LayoutOk;
      ghost var k, i := LiveBlock(majors, minors, layout, min);
      HeadersAt(majors, minors, layout, k, i);
      ShrunkLinked(majors, minors, layout, k, i, size);
      ShrunkAgrees(memRoot, bestBet, allocatedBytes, inUse, bytes, layout, k, i, size);
      ShrunkLayoutOk(layout, min, k, i, size);
      minors := minors[min := minors[min].(req := size)];
      layout := Shrunk(layout, k, i, size);
    }

    /** The last steps of krealloc: the bytes move to the new block and the old block goes. */
    method MoveAndFree(q: nat, p: nat, count: nat, ghost b: Block, ghost nb: Block) returns (back: nat, pages: nat)
      requires Valid() && IsBlock(layout, b) && IsBlock(layout, nb) && b.addr != nb.addr
      requires p == PayloadStart(b) && q == PayloadStart(nb) && count <= b.req && count <= nb.req
      modifies this
      ensures Valid() && errors == old(errors) && warnings == old(warnings)
      ensures Copied(old(bytes), bytes, q, p, count)
      ensures Frees(old(layout), layout, b.addr, back, pages)
    {
      hide Regions, Linked, Agree, Frees, LayoutOk, IsBlock, Copied, AlignBytes;
      MoveFacts(layout, b, nb, count);
      Copy(q, p, count);
      AgreeWithBytes(memRoot, bestBet, allocatedBytes, inUse, old(bytes), bytes, layout);
      CopyKeepsBytes(old(bytes), bytes, layout, nb, p, count);
      LiveHeader(bytes, majors, minors, layout, b);
      back, pages := Kfree(p);
    }

    /** krealloc of a pointer that kmalloc gave out, of null, or of one whose header is not live.
        A failing kmalloc is not checked: the copy to the null pointer is reported as a crash. */
    method Krealloc(p: nat, size: nat, grant: nat) returns (q: nat, crashed: bool)
      requires Valid() && p < WORD && size <= MAX_REQUEST && (grant == 0 || Grantable(layout, NewRegion(grant, size)))
      requires p == 0 || HeaderOf(bytes, p) !in minors || exists b :: IsBlock(layout, b) && p == PayloadStart(b)
      modifies this
      ensures Valid()
      ensures size == 0 && p != 0 && HeaderOf(old(bytes), p) in old(minors) ==>
                q == 0 && !crashed && FreedIn(old(layout), layout, HeaderOf(old(bytes), p)) && bytes == old(bytes)
      ensures size != 0 && p == 0 && q != 0 ==> Allocates(old(layout), layout, old(bytes), bytes, size, grant, q)
      ensures size == 0 && p == 0 ==> q == 0 && !crashed && layout == old(layout) && bytes == old(bytes)
      ensures size != 0 && p == 0 && q == 0 ==>
                grant == 0 && Full(old(layout), size) && layout == old(layout) && bytes == old(bytes)
      ensures p != 0 && HeaderOf(old(bytes), p) !in old(minors) ==>
                q == 0 && !crashed && layout == old(layout) && bytes == old(bytes) && errors == old(errors) + 1
      ensures forall b :: size != 0 && IsBlock(old(layout), b) && p == PayloadStart(b) ==>
                Reallocates(old(layout), layout, old(bytes), bytes, b, size, grant, q, crashed)
    {
      hide Regions, Linked, Agree, Frees, LayoutOk, IsBlock, Reallocates, Allocates, FreedIn, Full, ShrunkIn, Grantable;
      crashed := false;
      AgreeWithBytes(memRoot, bestBet, allocatedBytes, inUse, bytes, bytes, layout);
      forall b | IsBlock(layout, b) ensures PayloadStart(b) != 0
          && (p == PayloadStart(b) ==> HeaderOf(bytes, p) in minors) {
        LiveHeader(bytes, majors, minors, layout, b);
      }
      if size == 0 {
        var back, pages := Kfree(p);
        FreesMeans(old(layout), layout, HeaderOf(old(bytes), p), back, pages);
        return 0, false;
      }
      if p == 0 {
        q := Kmalloc(size, grant);
        return;
      }
      var ptr := Unaligned(p, Byte(bytes, (p + WORD - ALIGN_INFO) % WORD));
      var min := (ptr + WORD - MINOR) % WORD;
      if min !in minors {
        errors := errors + 1;
        return 0, false;
      }
      ghost var b :| IsBlock(layout, b) && p == PayloadStart(b);
      LiveHeader(bytes, majors, minors, layout, b);
      forall c | IsBlock(layout, c) && p == PayloadStart(c) ensures c == b {
        HeaderOfPointer(bytes, layout, c);
        SameBlock(layout, b, c);
      }
      q, crashed := Resize(p, min, size, grant, b);
    }

    /** krealloc of a live block. */
    method Resize(p: nat, min: nat, size: nat, grant: nat, ghost b: Block) returns (q: nat, crashed: bool)
      requires Valid() && size <= MAX_REQUEST && (grant == 0 || Grantable(layout, NewRegion(grant, size)))
      requires IsBlock(layout, b) && p == PayloadStart(b) && min == b.addr
      modifies this
      ensures Valid() && errors == old(errors)
      ensures Reallocates(old(layout), layout, old(bytes), bytes, b, size, grant, q, crashed)
    {
      hide Regions, Linked, Agree, Frees, LayoutOk, IsBlock, Allocates, FreedIn, Full, ShrunkIn, Grantable;
      AgreeWithBytes(memRoot, bestBet, allocatedBytes, inUse, bytes, bytes, layout);
      LiveHeader(bytes, majors, minors, layout, b);
      var realSize := minors[min].req;
      if realSize >= size {
        Shrink(min, size);
        return p, false;
      }
      ghost var l0, bytes0 := layout, bytes;
      q := Kmalloc(size, grant);
      if q == 0 {
        if realSize > 0 { return 0, true; }
        AgreeWithBytes(memRoot, bestBet, allocatedBytes, inUse, bytes, bytes, layout);
        LiveHeader(bytes, majors, minors, layout, b);
        var back, pages := Kfree(p);
        FreesMeans(l0, layout, b.addr, back, pages);
        return 0, false;
      }
      ghost var nb := AllocatesFresh(l0, layout, bytes0, bytes, size, grant, q);
      ghost var l1, bytes1 := layout, bytes;
      var back, pages := MoveAndFree(q, p, realSize, b, nb);
      FreesMeans(l1, layout, b.addr, back, pages);
      assert MovesVia(l0, layout, bytes0, bytes, b, size, grant, q, l1, bytes1);
      return q, false;
    }
  }

  /** After any allocation the new block is apart from all live ones, which keep their place and
      every one of their bytes; the pointer is aligned and the whole request is in the block. */
  lemma AllocatesFresh(l0: Layout, m: Layout, bytes: map<nat, int>, bytes': map<nat, int>, req: nat, grant: nat, p: nat)
    returns (b: Block)
    requires Regions(l0) && (grant == 0 || Grantable(l0, NewRegion(grant, req)))
    requires Allocates(l0, m, bytes, bytes', req, grant, p)
    ensures Regions(m) && IsBlock(m, b) && b.req == req && p == PayloadStart(b) && p % ALIGNMENT == 0
    ensures b.addr + MINOR + ALIGN_INFO <= p && p + req <= End(b)
    ensures forall c :: IsBlock(l0, c) ==> IsBlock(m, c) && BlocksApart(b, c)
    ensures forall c :: IsBlock(m, c) ==> IsBlock(l0, c) || c == b
    ensures forall c, x: nat :: IsBlock(l0, c) && c.addr <= x < End(c) ==> Byte(bytes', x) == Byte(bytes, x)
  {
    hide Regions, IsBlock, AllocatedIn, Full, Grantable;
    if AllocatedIn(l0, m, req, p) {
      b := AllocationIsFresh(l0, m, req, p);
    } else {
      var r := NewRegion(grant, req);
      AppendKeepsRegions(l0, r);
      forall c ensures IsBlock(l0 + [r], c) <==> IsBlock(l0, c) {
        EmptyRegionAddsNone(l0, r, c);
      }
      b := AllocationIsFresh(l0 + [r], m, req, p);
    }
  }

  lemma EmptyRegionAddsNone(l: Layout, r: Region, c: Block)
    requires r.blocks == []
    ensures IsBlock(l + [r], c) <==> IsBlock(l, c)
  {
    var m := l + [r];
    if IsBlock(l, c) {
      var k, i :| 0 <= k < |l| && 0 <= i < |l[k].blocks| && l[k].blocks[i] == c;
      assert m[k].blocks[i] == c;
    }
  }
}
