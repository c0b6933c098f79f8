/** Where the kernel heap keeps its blocks (src/liballoc/liballoc.c), as values.

    A region ("major") is a run of pages that starts with a header of 24 bytes.  A block ("minor")
    is a header of 24 bytes followed by `size` bytes, which hold the bytes asked for at an aligned
    place.  Blocks of a region are listed by address. */
module HeapLayout {
  import opened Sequences

  const WORD: nat := 0x1_0000_0000
  const MAJOR: nat := 24       // sizeof(struct liballoc_major)
  const MINOR: nat := 24       // sizeof(struct liballoc_minor)
  const ALIGNMENT: nat := 16
  const ALIGN_INFO: nat := 16
  const PAGE_SIZE: nat := 4096
  const PAGE_COUNT: nat := 16

  datatype Block = Block(addr: nat, size: nat, req: nat)
  datatype Region = Region(addr: nat, pages: nat, blocks: seq<Block>)
  type Layout = seq<Region>

  function End(b: Block): nat {
    b.addr + MINOR + b.size
  }

  function Size(r: Region): nat {
    r.pages * PAGE_SIZE
  }

  /** The free bytes before block i, or after the last one for i == |blocks|. */
  function GapStart(r: Region, i: nat): nat
    requires i <= |r.blocks|
  {
    if i == 0 then r.addr + MAJOR else End(r.blocks[i - 1])
  }

  function GapEnd(r: Region, i: nat): nat
    requires i <= |r.blocks|
  {
    if i == |r.blocks| then r.addr + Size(r) else r.blocks[i].addr
  }

  ghost predicate HasRoom(r: Region, i: nat, need: nat)
    requires i <= |r.blocks|
  {
    GapStart(r, i) + need <= GapEnd(r, i)
  }

  /** Gap i is the first with room. */
  ghost predicate FirstRoom(r: Region, i: nat, need: nat)
    requires i <= |r.blocks|
  {
    HasRoom(r, i, need) && forall j :: 0 <= j < i ==> !HasRoom(r, j, need)
  }

  ghost predicate NoRoom(r: Region, need: nat) {
    forall i :: 0 <= i <= |r.blocks| ==> !HasRoom(r, i, need)
  }

  function Used(blocks: seq<Block>): nat {
    if blocks == [] then 0 else Used(blocks[..|blocks| - 1]) + MINOR + blocks[|blocks| - 1].size
  }

  function Payloads(blocks: seq<Block>): nat {
    if blocks == [] then 0 else Payloads(blocks[..|blocks| - 1]) + blocks[|blocks| - 1].size
  }

  /** Blocks lie in the region, by address and without overlap, each with slack for alignment. */
  ghost predicate RegionOk(r: Region) {
    && 0 < r.addr && PAGE_COUNT <= r.pages && r.addr + Size(r) <= WORD
    && (forall i :: 0 <= i <= |r.blocks| ==> GapStart(r, i) <= GapEnd(r, i))
    && (forall i :: 0 <= i < |r.blocks| ==> r.blocks[i].req + ALIGNMENT + ALIGN_INFO <= r.blocks[i].size)
  }

  predicate Apart(r: Region, s: Region) {
    r.addr + Size(r) <= s.addr || s.addr + Size(s) <= r.addr
  }

  ghost predicate Regions(l: Layout) {
    && (forall k :: 0 <= k < |l| ==> RegionOk(l[k]))
    && (forall j, k :: 0 <= j < k < |l| ==> Apart(l[j], l[k]))
  }

  /** Between two calls no region is empty. */
  ghost predicate LayoutOk(l: Layout) {
    Regions(l) && forall k :: 0 <= k < |l| ==> l[k].blocks != []
  }

  function TotalSize(l: Layout): nat {
    if l == [] then 0 else TotalSize(l[..|l| - 1]) + Size(l[|l| - 1])
  }

  function TotalPayload(l: Layout): nat {
    if l == [] then 0 else TotalPayload(l[..|l| - 1]) + Payloads(l[|l| - 1].blocks)
  }

  // ---- Alignment -----------------------------------------------------------------------------

  /** ALIGN: past the alignment byte and up to a multiple of 16. */
  function Aligned(a: nat): nat {
    var p := a + ALIGN_INFO;
    var diff := p % ALIGNMENT;
    if diff != 0 then p + (ALIGNMENT - diff) else p
  }

  function PayloadStart(b: Block): nat {
    Aligned(b.addr + MINOR)
  }

  /** The number ALIGN stores 16 bytes before the pointer it returns. */
  function AlignByte(b: Block): nat {
    PayloadStart(b) - (b.addr + MINOR)
  }

  /** UNALIGN with the byte found 16 before the pointer: read as a signed char, a byte from 128 on
      is a huge number and leaves the pointer alone. */
  function Unaligned(p: nat, byte: int): nat {
    if 0 <= byte < ALIGNMENT + ALIGN_INFO && byte <= p then p - byte else p
  }

  /** The pointer is 16-aligned, the alignment byte and the bytes asked for lie in the block, and
      UNALIGN leads back to the block. */
  lemma AlignRoundTrip(b: Block)
    requires b.req + ALIGNMENT + ALIGN_INFO <= b.size
    ensures PayloadStart(b) % 16 == 0
    ensures b.addr + MINOR <= PayloadStart(b) - ALIGN_INFO
    ensures PayloadStart(b) + b.req <= End(b)
    ensures AlignByte(b) < ALIGNMENT + ALIGN_INFO
    ensures Unaligned(PayloadStart(b), AlignByte(b)) == b.addr + MINOR
  {
  }

  // ---- Order and disjointness ----------------------------------------------------------------

  lemma {:induction false} BlocksInOrder(r: Region, i: nat, j: nat)
    requires RegionOk(r) && i < j < |r.blocks|
    ensures End(r.blocks[i]) <= r.blocks[j].addr
    decreases j
  {
    assert GapStart(r, j) <= GapEnd(r, j);
    if i < j - 1 { BlocksInOrder(r, i, j - 1); }
  }

  lemma {:induction false} BlockInside(r: Region, i: nat)
    requires RegionOk(r) && i < |r.blocks|
    ensures r.addr + MAJOR <= r.blocks[i].addr && End(r.blocks[i]) <= r.addr + Size(r)
  {
    assert GapStart(r, 0) <= GapEnd(r, 0) && GapStart(r, |r.blocks|) <= GapEnd(r, |r.blocks|);
    if i > 0 { BlocksInOrder(r, 0, i); }
    if i < |r.blocks| - 1 { BlocksInOrder(r, i, |r.blocks| - 1); }
  }

  predicate BlocksApart(b: Block, c: Block) {
    End(b) <= c.addr || End(c) <= b.addr
  }

  predicate InPages(x: nat, r: Region) {
    r.addr <= x < r.addr + r.pages * 4096
  }

  predicate InBlock(x: nat, b: Block) {
    b.addr <= x < b.addr + 24 + b.size
  }

  /** Apart are pages, and blocks with their headers, that have no byte in common; all lie below 4 GiB. */
  lemma ApartMeansNoByte(r: Region, s: Region, b: Block, c: Block)
    ensures r.pages > 0 && s.pages > 0 ==>
      (Apart(r, s) <==> forall x :: !(InPages(x, r) && InPages(x, s)))
    ensures BlocksApart(b, c) <==> forall x :: !(InBlock(x, b) && InBlock(x, c))
    ensures RegionOk(r) ==> r.addr + r.pages * 4096 <= 0x1_0000_0000
  {
    var x := if r.addr < s.addr then s.addr else r.addr;
    if r.pages > 0 && s.pages > 0 && !Apart(r, s) {
      assert InPages(x, r) && InPages(x, s);
    }
    var y := if b.addr < c.addr then c.addr else b.addr;
    if !BlocksApart(b, c) {
      assert InBlock(y, b) && InBlock(y, c);
    }
  }

  /** Any two blocks of the heap, headers included, are disjoint, and miss all region headers. */
  lemma AllApart(l: Layout, k: nat, i: nat, m: nat, j: nat)
    requires Regions(l) && k < |l| && m < |l| && i < |l[k].blocks| && j < |l[m].blocks|
    ensures (k, i) != (m, j) ==> BlocksApart(l[k].blocks[i], l[m].blocks[j])
    ensures l[m].addr + MAJOR <= l[k].blocks[i].addr || End(l[k].blocks[i]) <= l[m].addr
  {
    BlockInside(l[k], i);
    BlockInside(l[m], j);
    if k == m {
      if i < j { BlocksInOrder(l[k], i, j); } else if j < i { BlocksInOrder(l[k], j, i); }
    } else {
      assert if k < m then Apart(l[k], l[m]) else Apart(l[m], l[k]);
    }
  }

  // ---- Sums ----------------------------------------------------------------------------------

  /** Up to gap n the region holds the header, the blocks, and any gap found before. */
  lemma {:induction false} GapsAddUp(r: Region, n: nat, i: nat, need: nat)
    requires RegionOk(r) && n <= |r.blocks|
    ensures r.addr + MAJOR + Used(r.blocks[..n]) <= GapStart(r, n)
    ensures i < n && HasRoom(r, i, need) ==> r.addr + MAJOR + Used(r.blocks[..n]) + need <= GapStart(r, n)
  {
    if n > 0 {
      GapsAddUp(r, n - 1, i, need);
      assert r.blocks[..n][..n - 1] == r.blocks[..n - 1];
      assert GapStart(r, n - 1) <= GapEnd(r, n - 1);
    }
  }

  /** `usage` never exceeds the size of the region, and a gap is part of what is left. */
  lemma UsedFits(r: Region)
    requires RegionOk(r)
    ensures MAJOR + Used(r.blocks) <= Size(r)
    ensures forall need: nat :: Size(r) - (MAJOR + Used(r.blocks)) < need ==> NoRoom(r, need)
  {
    assert r.blocks[..|r.blocks|] == r.blocks;
    GapsAddUp(r, |r.blocks|, 0, 0);
    assert GapStart(r, |r.blocks|) <= GapEnd(r, |r.blocks|);
    forall need: nat | Size(r) - (MAJOR + Used(r.blocks)) < need ensures NoRoom(r, need) {
      forall i | 0 <= i <= |r.blocks| ensures !HasRoom(r, i, need) {
        GapsAddUp(r, |r.blocks|, i, need);
      }
    }
  }

  lemma {:induction false} InsertSums(s: seq<Block>, i: nat, b: Block)
    requires i <= |s|
    ensures Used(InsertAt(s, i, b)) == Used(s) + MINOR + b.size
    ensures Payloads(InsertAt(s, i, b)) == Payloads(s) + b.size
  {
    var t := InsertAt(s, i, b);
    if i == |s| {
      assert t[..|t| - 1] == s;
    } else {
      assert t[..|t| - 1] == InsertAt(s[..|s| - 1], i, b);
      InsertSums(s[..|s| - 1], i, b);
    }
  }

  lemma {:induction false} RemoveSums(s: seq<Block>, i: nat)
    requires i < |s|
    ensures Used(RemoveAt(s, i)) == Used(s) - MINOR - s[i].size
    ensures Payloads(RemoveAt(s, i)) == Payloads(s) - s[i].size
  {
    assert InsertAt(RemoveAt(s, i), i, s[i]) == s;
    InsertSums(RemoveAt(s, i), i, s[i]);
  }

  lemma {:induction false} ReplaceTotals(l: Layout, k: nat, r: Region)
    requires k < |l|
    ensures TotalSize(l[k := r]) == TotalSize(l) - Size(l[k]) + Size(r)
    ensures TotalPayload(l[k := r]) == TotalPayload(l) - Payloads(l[k].blocks) + Payloads(r.blocks)
    ensures TotalSize(l) >= Size(l[k]) && TotalPayload(l) >= Payloads(l[k].blocks)
  {
    var n := |l| - 1;
    if k == n {
      assert l[k := r][..n] == l[..n];
    } else {
      assert l[k := r][..n] == l[..n][k := r];
      ReplaceTotals(l[..n], k, r);
    }
  }

  lemma {:induction false} RemoveTotals(l: Layout, k: nat)
    requires k < |l|
    ensures TotalSize(RemoveAt(l, k)) == TotalSize(l) - Size(l[k])
    ensures TotalPayload(RemoveAt(l, k)) == TotalPayload(l) - Payloads(l[k].blocks)
  {
    var n := |l| - 1;
    if k == n {
      assert RemoveAt(l, k) == l[..n];
    } else {
      assert RemoveAt(l, k)[..n - 1] == RemoveAt(l[..n], k);
      RemoveTotals(l[..n], k);
    }
  }

  // ---- The calls on layouts ------------------------------------------------------------------

  /** A block of `size` for a request of `req` at the start of gap i of region k. */
  ghost predicate Placed(l: Layout, m: Layout, k: nat, i: nat, b: Block) {
    && k < |l| && i <= |l[k].blocks| && b.addr == GapStart(l[k], i) && HasRoom(l[k], i, MINOR + b.size)
    && b.req + ALIGNMENT + ALIGN_INFO == b.size
    && m == l[k := l[k].(blocks := InsertAt(l[k].blocks, i, b))]
  }

  lemma InsertKeepsRegion(r: Region, i: nat, b: Block)
    requires RegionOk(r) && i <= |r.blocks| && b.addr == GapStart(r, i) && HasRoom(r, i, MINOR + b.size)
    requires b.req + ALIGNMENT + ALIGN_INFO <= b.size
    ensures RegionOk(r.(blocks := InsertAt(r.blocks, i, b)))
  {
    var s := r.(blocks := InsertAt(r.blocks, i, b));
    forall j | 0 <= j <= |s.blocks| ensures GapStart(s, j) <= GapEnd(s, j) {
      if j < i {
        assert GapStart(s, j) == GapStart(r, j) && GapEnd(s, j) == GapEnd(r, j);
      } else if j > i + 1 {
        assert GapStart(s, j) == GapStart(r, j - 1) && GapEnd(s, j) == GapEnd(r, j - 1);
      }
    }
  }

  lemma RemoveKeepsRegion(r: Region, i: nat)
    requires RegionOk(r) && i < |r.blocks|
    ensures RegionOk(r.(blocks := RemoveAt(r.blocks, i)))
  {
    var s := r.(blocks := RemoveAt(r.blocks, i));
    forall j | 0 <= j <= |s.blocks| ensures GapStart(s, j) <= GapEnd(s, j) {
      assert GapStart(r, j) <= GapEnd(r, j) && GapStart(r, j + 1) <= GapEnd(r, j + 1);
      if j < i {
        assert GapStart(s, j) == GapStart(r, j) && GapEnd(s, j) == GapEnd(r, j);
      } else if j > i {
        assert GapStart(s, j) == GapStart(r, j + 1) && GapEnd(s, j) == GapEnd(r, j + 1);
      } else {
        assert GapStart(r, i) <= r.blocks[i].addr <= GapStart(r, i + 1) <= GapEnd(r, i + 1) == GapEnd(s, i);
      }
    }
  }

  /** kmalloc found room: `p` is the aligned pointer into a new block at the first gap with room of
      some region. */
  ghost predicate AllocatedIn(l: Layout, m: Layout, req: nat, p: nat) {
    exists k, i :: 0 <= k < |l| && 0 <= i <= |l[k].blocks| && AllocatedAt(l, m, req, p, k, i)
  }

  ghost predicate AllocatedAt(l: Layout, m: Layout, req: nat, p: nat, k: nat, i: nat)
    requires k < |l| && i <= |l[k].blocks|
  {
    var b := NewBlock(l[k], i, req);
    && Placed(l, m, k, i, b)
    && p == PayloadStart(b)
    && FirstRoom(l[k], i, MINOR + b.size)
  }

  function NewBlock(r: Region, i: nat, req: nat): Block
    requires i <= |r.blocks|
  {
    Block(GapStart(r, i), req + ALIGNMENT + ALIGN_INFO, req)
  }

  /** No region has a gap for a request of `req` bytes. */
  ghost predicate Full(l: Layout, req: nat) {
    forall k :: 0 <= k < |l| ==> NoRoom(l[k], MINOR + req + ALIGNMENT + ALIGN_INFO)
  }

  /** The pages allocate_new_page asks for. */
  function PagesFor(size: nat): nat {
    var bytes := size + MAJOR + MINOR;
    var pages := if bytes % PAGE_SIZE == 0 then bytes / PAGE_SIZE else bytes / PAGE_SIZE + 1;
    if pages < PAGE_COUNT then PAGE_COUNT else pages
  }

  function NewRegion(addr: nat, req: nat): Region {
    Region(addr, PagesFor(req + ALIGNMENT + ALIGN_INFO), [])
  }

  /** The page source gives a run of pages that nobody has. */
  ghost predicate Grantable(l: Layout, r: Region) {
    0 < r.addr && r.addr + Size(r) <= WORD && forall k :: 0 <= k < |l| ==> Apart(l[k], r)
  }

  /** The pages are the least number, from 16 on, that holds the two headers of 24 bytes each, the request
      and 32 bytes for its alignment. */
  lemma LeastPages(req: nat)
    ensures var pages := PagesFor(req + ALIGNMENT + ALIGN_INFO);
            && pages >= 16 && pages * 4096 >= 24 + 24 + req + 32
            && (pages > 16 ==> (pages - 1) * 4096 < 24 + 24 + req + 32)
  {
  }

  /** For instance the first block of a new region: the pointer is 64 bytes behind the start of the pages,
      and the whole block takes 56 bytes more than were asked for. */
  lemma FirstPointer(addr: nat, req: nat)
    requires addr % 4096 == 0
    ensures var b := NewBlock(NewRegion(addr, req), 0, req);
            && b.addr == addr + 24 && PayloadStart(b) == addr + 64 && AlignByte(b) == 16
            && End(b) == addr + 24 + req + 56
  {
    hide PagesFor;
    assert (addr + 64) % 16 == 0 by { PagesAligned(addr); }
  }

  lemma PagesAligned(addr: nat)
    requires addr % 4096 == 0
    ensures (addr + 64) % 16 == 0
  {
    var k := addr / 4096;
    assert addr + 64 == 16 * (256 * k + 4);
  }

  lemma NewRegionHasRoom(addr: nat, req: nat)
    ensures HasRoom(NewRegion(addr, req), 0, MINOR + req + ALIGNMENT + ALIGN_INFO)
    ensures PAGE_COUNT <= NewRegion(addr, req).pages
  {
  }

  /** kfree took the block at address `a` away, with its region if that was its last block. */
  ghost predicate FreedIn(l: Layout, m: Layout, a: nat) {
    exists k, i :: 0 <= k < |l| && 0 <= i < |l[k].blocks| && FreedAt(l, m, a, k, i)
  }

  ghost predicate FreedAt(l: Layout, m: Layout, a: nat, k: nat, i: nat)
    requires k < |l| && i < |l[k].blocks|
  {
    && l[k].blocks[i].addr == a
    && m == if |l[k].blocks| == 1 then RemoveAt(l, k) else l[k := l[k].(blocks := RemoveAt(l[k].blocks, i))]
  }

  /** krealloc lowered the size remembered for the block at address `a`. */
  ghost predicate ShrunkAt(l: Layout, m: Layout, a: nat, req: nat, k: nat, i: nat)
    requires k < |l| && i < |l[k].blocks|
  {
    && l[k].blocks[i].addr == a && req <= l[k].blocks[i].req
    && m == l[k := l[k].(blocks := l[k].blocks[i := l[k].blocks[i].(req := req)])]
  }

  ghost predicate ShrunkIn(l: Layout, m: Layout, a: nat, req: nat) {
    exists k, i :: 0 <= k < |l| && 0 <= i < |l[k].blocks| && ShrunkAt(l, m, a, req, k, i)
  }

  ghost predicate IsBlock(l: Layout, b: Block) {
    exists k, i :: 0 <= k < |l| && 0 <= i < |l[k].blocks| && l[k].blocks[i] == b
  }

  lemma ReplaceKeepsRegions(l: Layout, k: nat, r: Region)
    requires Regions(l) && k < |l| && RegionOk(r) && r.addr == l[k].addr && r.pages == l[k].pages
    ensures Regions(l[k := r])
  {
  }

  lemma AppendKeepsRegions(l: Layout, r: Region)
    requires Regions(l) && Grantable(l, r) && r.blocks == [] && PAGE_COUNT <= r.pages
    ensures Regions(l + [r])
  {
  }

  lemma RemoveKeepsRegions(l: Layout, k: nat)
    requires Regions(l) && k < |l|
    ensures Regions(RemoveAt(l, k))
  {
  }

  lemma AllocatedRegions(l: Layout, m: Layout, req: nat, k: nat, i: nat)
    requires Regions(l) && k < |l| && i <= |l[k].blocks| && Placed(l, m, k, i, NewBlock(l[k], i, req))
    ensures Regions(m) && k < |m| && i < |m[k].blocks| && m[k].blocks[i] == NewBlock(l[k], i, req)
  {
    InsertKeepsRegion(l[k], i, NewBlock(l[k], i, req));
    ReplaceKeepsRegions(l, k, m[k]);
  }

  lemma AllocationKeeps(l: Layout, m: Layout, req: nat, k: nat, i: nat, c: Block)
    requires Regions(m) && k < |l| && i <= |l[k].blocks| && Placed(l, m, k, i, NewBlock(l[k], i, req)) && IsBlock(l, c)
    ensures IsBlock(m, c) && BlocksApart(NewBlock(l[k], i, req), c)
  {
    var n, j :| 0 <= n < |l| && 0 <= j < |l[n].blocks| && l[n].blocks[j] == c;
    var j' := if n == k && j >= i then j + 1 else j;
    assert m[n].blocks[j'] == c && m[k].blocks[i] == NewBlock(l[k], i, req);
    AllApart(m, k, i, n, j');
  }

  lemma AllocationAddsOne(l: Layout, m: Layout, req: nat, k: nat, i: nat, c: Block)
    requires k < |l| && i <= |l[k].blocks| && Placed(l, m, k, i, NewBlock(l[k], i, req)) && IsBlock(m, c)
    ensures IsBlock(l, c) || c == NewBlock(l[k], i, req)
  {
  }

  /** What allocation means for the blocks: all old ones stay where and as they are, the new one
      is disjoint from each of them, and the pointer is aligned with the whole request inside. */
  lemma AllocationIsFresh(l: Layout, m: Layout, req: nat, p: nat) returns (b: Block)
    requires Regions(l) && AllocatedIn(l, m, req, p)
    ensures Regions(m)
    ensures IsBlock(m, b) && b.req == req && p == PayloadStart(b)
    ensures p % ALIGNMENT == 0 && b.addr + MINOR + ALIGN_INFO <= p && p + req <= End(b)
    ensures forall c :: IsBlock(l, c) ==> IsBlock(m, c) && BlocksApart(b, c)
    ensures forall c :: IsBlock(m, c) ==> IsBlock(l, c) || c == b
  {
    var k, i :| 0 <= k < |l| && 0 <= i <= |l[k].blocks| && AllocatedAt(l, m, req, p, k, i);
    b := NewBlock(l[k], i, req);
    AllocatedRegions(l, m, req, k, i);
    AlignRoundTrip(b);
    assert IsBlock(m, b);
    assert p == PayloadStart(b);
    hide IsBlock, Regions;
    forall c | IsBlock(l, c) ensures IsBlock(m, c) && BlocksApart(b, c) {
      AllocationKeeps(l, m, req, k, i, c);
    }
    forall c | IsBlock(m, c) ensures IsBlock(l, c) || c == b {
      AllocationAddsOne(l, m, req, k, i, c);
    }
  }

  /** The new block stands at the first gap of its region that is long enough for it. */
  lemma AllocationIsFirstFit(l: Layout, m: Layout, req: nat, p: nat) returns (k: nat, i: nat)
    requires AllocatedIn(l, m, req, p)
    ensures k < |l| && i <= |l[k].blocks|
    ensures p == PayloadStart(NewBlock(l[k], i, req)) && GapStart(l[k], i) + 24 + req + 32 <= GapEnd(l[k], i)
    ensures forall j: nat :: j < i ==> GapEnd(l[k], j) < GapStart(l[k], j) + 24 + req + 32
  {
    k, i :| k < |l| && i <= |l[k].blocks| && AllocatedAt(l, m, req, p, k, i);
    forall j: nat | j < i ensures GapEnd(l[k], j) < GapStart(l[k], j) + 24 + req + 32 {
      assert !HasRoom(l[k], j, MINOR + req + ALIGNMENT + ALIGN_INFO);
    }
  }

  /** Freeing takes away one block and leaves every other where and as it is. */
  lemma FreeingIsLocal(l: Layout, m: Layout, a: nat)
    requires LayoutOk(l) && FreedIn(l, m, a)
    ensures LayoutOk(m)
    ensures forall c :: IsBlock(m, c) <==> IsBlock(l, c) && c.addr != a
  {
    var k, i :| 0 <= k < |l| && 0 <= i < |l[k].blocks| && FreedAt(l, m, a, k, i);
    FreedLayoutOk(l, m, a, k, i);
    hide IsBlock, Regions, FreedAt;
    forall c ensures IsBlock(m, c) <==> IsBlock(l, c) && c.addr != a {
      if IsBlock(m, c) { FreedWasOther(l, m, a, k, i, c); }
      if IsBlock(l, c) && c.addr != a { OthersStay(l, m, a, k, i, c); }
    }
  }

  lemma FreedLayoutOk(l: Layout, m: Layout, a: nat, k: nat, i: nat)
    requires LayoutOk(l) && k < |l| && i < |l[k].blocks| && FreedAt(l, m, a, k, i)
    ensures LayoutOk(m)
  {
    if |l[k].blocks| == 1 {
      RemoveKeepsRegions(l, k);
    } else {
      RemoveKeepsRegion(l[k], i);
      ReplaceKeepsRegions(l, k, l[k].(blocks := RemoveAt(l[k].blocks, i)));
    }
  }

  lemma FreedWasOther(l: Layout, m: Layout, a: nat, k: nat, i: nat, c: Block)
    requires Regions(l) && k < |l| && i < |l[k].blocks| && FreedAt(l, m, a, k, i) && IsBlock(m, c)
    ensures IsBlock(l, c) && c.addr != a
  {
    var n, j :| 0 <= n < |m| && 0 <= j < |m[n].blocks| && m[n].blocks[j] == c;
    var n' := if |l[k].blocks| == 1 && n >= k then n + 1 else n;
    var j' := if |l[k].blocks| != 1 && n == k && j >= i then j + 1 else j;
    assert l[n'].blocks[j'] == c;
    AllApart(l, n', j', k, i);
  }

  lemma OthersStay(l: Layout, m: Layout, a: nat, k: nat, i: nat, c: Block)
    requires k < |l| && i < |l[k].blocks| && FreedAt(l, m, a, k, i) && IsBlock(l, c) && c.addr != a
    ensures IsBlock(m, c)
  {
    var n, j :| 0 <= n < |l| && 0 <= j < |l[n].blocks| && l[n].blocks[j] == c;
    if |l[k].blocks| == 1 {
      assert m[if n < k then n else n - 1].blocks[j] == c;
    } else if n == k {
      assert m[n].blocks[if j < i then j else j - 1] == c;
    } else {
      assert m[n].blocks[j] == c;
    }
  }

  /** Shrinking a request in place changes nothing but the number remembered. */
  lemma ShrinkingIsLocal(l: Layout, m: Layout, a: nat, req: nat)
    requires LayoutOk(l) && ShrunkIn(l, m, a, req)
    ensures LayoutOk(m)
    ensures forall c: Block :: c.addr != a ==> (IsBlock(m, c) <==> IsBlock(l, c))
  {
    var k, i :| 0 <= k < |l| && 0 <= i < |l[k].blocks| && ShrunkAt(l, m, a, req, k, i);
    forall j | 0 <= j <= |m[k].blocks| ensures GapStart(m[k], j) <= GapEnd(m[k], j) {
      assert GapStart(m[k], j) == GapStart(l[k], j) && GapEnd(m[k], j) == GapEnd(l[k], j);
    }
    ReplaceKeepsRegions(l, k, m[k]);
    hide Regions, RegionOk;
    forall c: Block | c.addr != a ensures IsBlock(m, c) <==> IsBlock(l, c) {
      ShrunkOther(l, m, a, req, k, i, c);
    }
  }

  lemma ShrunkOther(l: Layout, m: Layout, a: nat, req: nat, k: nat, i: nat, c: Block)
    requires k < |l| && i < |l[k].blocks| && ShrunkAt(l, m, a, req, k, i) && c.addr != a
    ensures IsBlock(m, c) <==> IsBlock(l, c)
  {
    if IsBlock(m, c) {
      var n, j :| 0 <= n < |m| && 0 <= j < |m[n].blocks| && m[n].blocks[j] == c;
      assert l[n].blocks[j] == c;
    }
    if IsBlock(l, c) {
      var n, j :| 0 <= n < |l| && 0 <= j < |l[n].blocks| && l[n].blocks[j] == c;
      assert m[n].blocks[j] == c;
    }
  }
}
