/** The linked headers of the kernel heap and the layout they stand for
    (src/liballoc/liballoc.c).  A pointer is an address, 0 the null pointer. */
module HeapLinks {
  import opened Sequences
  import opened HeapLayout

  const MAGIC: int := 0xc001_c0de

  datatype Major = Major(prev: nat, next: nat, pages: nat, size: nat, usage: nat, first: nat)
  datatype Minor = Minor(prev: nat, next: nat, block: nat, magic: int, size: nat, req: nat)

  function BlockAddr(r: Region, i: int): nat {
    if 0 <= i < |r.blocks| then r.blocks[i].addr else 0
  }

  function RegionAddr(l: Layout, k: int): nat {
    if 0 <= k < |l| then l[k].addr else 0
  }

  function MinorOf(r: Region, i: nat): Minor
    requires i < |r.blocks|
  {
    Minor(BlockAddr(r, i - 1), BlockAddr(r, i + 1), r.addr, MAGIC, r.blocks[i].size, r.blocks[i].req)
  }

  function MajorOf(l: Layout, k: nat): Major
    requires k < |l|
  {
    Major(RegionAddr(l, k - 1), RegionAddr(l, k + 1), l[k].pages, Size(l[k]), MAJOR + Used(l[k].blocks),
        BlockAddr(l[k], 0))
  }

  ghost predicate MinorsLinked(minors: map<nat, Minor>, r: Region) {
    forall i :: 0 <= i < |r.blocks| ==> r.blocks[i].addr in minors && minors[r.blocks[i].addr] == MinorOf(r, i)
  }

  ghost predicate MajorsLinked(majors: map<nat, Major>, l: Layout) {
    forall k :: 0 <= k < |l| ==> l[k].addr in majors && majors[l[k].addr] == MajorOf(l, k)
  }

  ghost predicate BlockAt(l: Layout, a: nat, k: nat, i: nat) {
    k < |l| && i < |l[k].blocks| && l[k].blocks[i].addr == a
  }

  /** Live headers are exactly those of the blocks. */
  ghost predicate OnlyBlocks(minors: map<nat, Minor>, l: Layout) {
    forall a :: a in minors ==> exists k: nat, i: nat :: BlockAt(l, a, k, i)
  }

  ghost predicate Linked(majors: map<nat, Major>, minors: map<nat, Minor>, l: Layout) {
    && MajorsLinked(majors, l)
    && (forall k :: 0 <= k < |l| ==> MinorsLinked(minors, l[k]))
    && OnlyBlocks(minors, l)
  }

  // ---- A new block ---------------------------------------------------------------------------

  /** The headers after block `b` was linked in before block i of region r. */
  function WithMinor(minors: map<nat, Minor>, r: Region, i: nat, b: Block): map<nat, Minor>
    requires i <= |r.blocks|
    requires i > 0 ==> r.blocks[i - 1].addr in minors
    requires i < |r.blocks| ==> r.blocks[i].addr in minors
  {
    var m1 := minors[b.addr := Minor(BlockAddr(r, i - 1), BlockAddr(r, i), r.addr, MAGIC, b.size, b.req)];
    var m2 := if i > 0 then m1[r.blocks[i - 1].addr := m1[r.blocks[i - 1].addr].(next := b.addr)] else m1;
    if i < |r.blocks| then m2[r.blocks[i].addr := m2[r.blocks[i].addr].(prev := b.addr)] else m2
  }

  function WithUsage(majors: map<nat, Major>, r: Region, i: nat, b: Block): map<nat, Major>
    requires r.addr in majors
  {
    var m := majors[r.addr];
    majors[r.addr := m.(usage := m.usage + b.size + MINOR, first := if i == 0 then b.addr else m.first)]
  }

  ghost predicate Fits(r: Region, i: nat, b: Block) {
    && i <= |r.blocks| && b.addr == GapStart(r, i) && HasRoom(r, i, MINOR + b.size)
    && b.req + ALIGNMENT + ALIGN_INFO <= b.size
  }

  ghost function Grown(l: Layout, k: nat, i: nat, b: Block): Layout
    requires k < |l| && i <= |l[k].blocks|
  {
    l[k := l[k].(blocks := InsertAt(l[k].blocks, i, b))]
  }

  ghost predicate Distinct(s: seq<Block>) {
    forall x: nat, y: nat :: x < y < |s| ==> s[x].addr != s[y].addr
  }

  lemma DistinctBlocks(r: Region)
    requires RegionOk(r)
    ensures Distinct(r.blocks)
    ensures forall j :: 0 <= j < |r.blocks| ==> r.blocks[j].addr != 0
  {
    forall x: nat, y: nat | x < y < |r.blocks| ensures r.blocks[x].addr != r.blocks[y].addr {
      BlocksInOrder(r, x, y);
    }
    forall j | 0 <= j < |r.blocks| ensures r.blocks[j].addr != 0 { BlockInside(r, j); }
  }

  lemma InsertedAddr(r: Region, i: nat, b: Block, j: int)
    requires i <= |r.blocks|
    ensures BlockAddr(r.(blocks := InsertAt(r.blocks, i, b)), j)
         == if j < i then BlockAddr(r, j) else if j == i then b.addr else BlockAddr(r, j - 1)
  {
  }

  lemma WithMinorAt(minors: map<nat, Minor>, r: Region, i: nat, b: Block, x: nat)
    requires MinorsLinked(minors, r) && i <= |r.blocks| && x in minors && x != b.addr
    ensures x in WithMinor(minors, r, i, b)
    ensures WithMinor(minors, r, i, b)[x] == minors[x].(
                next := if i > 0 && x == r.blocks[i - 1].addr then b.addr else minors[x].next,
                prev := if i < |r.blocks| && x == r.blocks[i].addr then b.addr else minors[x].prev)
  {
  }

  /** The header of an old block, with the neighbours it has after b was put before block i. */
  lemma InsertedMinor(r: Region, i: nat, b: Block, j: nat)
    requires i <= |r.blocks| && j < |r.blocks| && Distinct(InsertAt(r.blocks, i, b))
    ensures var s := r.(blocks := InsertAt(r.blocks, i, b)); var j' := if j < i then j else j + 1;
            && s.blocks[j'] == r.blocks[j] && r.blocks[j].addr != b.addr
            && MinorOf(s, j') == MinorOf(r, j).(
                next := if i > 0 && r.blocks[j].addr == r.blocks[i - 1].addr then b.addr else BlockAddr(r, j + 1),
                prev := if i < |r.blocks| && r.blocks[j].addr == r.blocks[i].addr then b.addr else BlockAddr(r, j - 1))
  {
    var t := InsertAt(r.blocks, i, b);
    var j' := if j < i then j else j + 1;
    assert t[i] == b && t[j'] == r.blocks[j];
    assert i > 0 ==> t[i - 1] == r.blocks[i - 1];
    assert i < |r.blocks| ==> t[i + 1] == r.blocks[i];
    InsertedAddr(r, i, b, j' - 1);
    InsertedAddr(r, i, b, j' + 1);
    hide InsertAt;
  }

  lemma NewMinorLinked(minors: map<nat, Minor>, r: Region, i: nat, b: Block)
    requires MinorsLinked(minors, r) && i <= |r.blocks| && Distinct(InsertAt(r.blocks, i, b))
    ensures InsertAt(r.blocks, i, b)[i] == b
    ensures b.addr in WithMinor(minors, r, i, b)
    ensures WithMinor(minors, r, i, b)[b.addr] == MinorOf(r.(blocks := InsertAt(r.blocks, i, b)), i)
  {
  }

  lemma OwnMinorLinked(minors: map<nat, Minor>, r: Region, i: nat, b: Block, j: nat)
    requires MinorsLinked(minors, r) && i <= |r.blocks| && j <= |r.blocks|
    requires Distinct(InsertAt(r.blocks, i, b))
    ensures var s := r.(blocks := InsertAt(r.blocks, i, b)); var m := WithMinor(minors, r, i, b);
            s.blocks[j].addr in m && m[s.blocks[j].addr] == MinorOf(s, j)
  {
    hide InsertAt, Distinct, WithMinor, BlockAddr;
    if j == i {
      NewMinorLinked(minors, r, i, b);
    } else {
      var j' := if j < i then j else j - 1;
      InsertedMinor(r, i, b, j');
      WithMinorAt(minors, r, i, b, r.blocks[j'].addr);
    }
  }

  lemma OwnRegionLinked(minors: map<nat, Minor>, r: Region, i: nat, b: Block)
    requires RegionOk(r) && MinorsLinked(minors, r) && Fits(r, i, b)
    ensures MinorsLinked(WithMinor(minors, r, i, b), r.(blocks := InsertAt(r.blocks, i, b)))
  {
    var s := r.(blocks := InsertAt(r.blocks, i, b));
    InsertKeepsRegion(r, i, b);
    DistinctBlocks(s);
    hide RegionOk, WithMinor, Distinct, MinorOf;
    forall j | 0 <= j < |s.blocks|
      ensures s.blocks[j].addr in WithMinor(minors, r, i, b)
      ensures WithMinor(minors, r, i, b)[s.blocks[j].addr] == MinorOf(s, j)
    {
      OwnMinorLinked(minors, r, i, b, j);
    }
  }

  /** An address inside one region is none of another region's headers. */
  lemma OtherRegionApart(l: Layout, k: nat, n: nat, j: nat, a: nat)
    requires Regions(l) && k < |l| && n < |l| && n != k && j < |l[n].blocks|
    requires l[k].addr <= a < l[k].addr + Size(l[k])
    ensures l[n].blocks[j].addr != a
  {
    BlockInside(l[n], j);
    assert if k < n then Apart(l[k], l[n]) else Apart(l[n], l[k]);
  }

  lemma OtherRegionLinked(minors: map<nat, Minor>, l: Layout, k: nat, i: nat, b: Block, n: nat)
    requires Regions(l) && k < |l| && n < |l| && n != k && Fits(l[k], i, b)
    requires MinorsLinked(minors, l[k]) && MinorsLinked(minors, l[n])
    ensures MinorsLinked(WithMinor(minors, l[k], i, b), l[n])
  {
    var m := WithMinor(minors, l[k], i, b);
    FitsInside(l[k], i, b);
    forall j | 0 <= j < |l[n].blocks| ensures m[l[n].blocks[j].addr] == minors[l[n].blocks[j].addr] {
      OtherRegionApart(l, k, n, j, b.addr);
      if i > 0 { BlockInside(l[k], i - 1); OtherRegionApart(l, k, n, j, l[k].blocks[i - 1].addr); }
      if i < |l[k].blocks| { BlockInside(l[k], i); OtherRegionApart(l, k, n, j, l[k].blocks[i].addr); }
    }
  }

  lemma FitsInside(r: Region, i: nat, b: Block)
    requires RegionOk(r) && Fits(r, i, b)
    ensures r.addr + MAJOR <= b.addr && End(b) <= r.addr + Size(r)
  {
    var s := r.(blocks := InsertAt(r.blocks, i, b));
    InsertKeepsRegion(r, i, b);
    assert s.blocks[i] == b;
    BlockInside(s, i);
  }

  lemma StillBlockAt(l: Layout, k: nat, i: nat, b: Block, a: nat, n: nat, j: nat)
    requires k < |l| && i <= |l[k].blocks| && BlockAt(l, a, n, j)
    ensures BlockAt(Grown(l, k, i, b), a, n, if n == k && j >= i then j + 1 else j)
  {
  }

  lemma OnlyOneMore(minors: map<nat, Minor>, r: Region, i: nat, b: Block, a: nat)
    requires MinorsLinked(minors, r) && i <= |r.blocks| && a in WithMinor(minors, r, i, b)
    ensures a == b.addr || a in minors
  {
  }

  lemma InsertOnly(minors: map<nat, Minor>, l: Layout, k: nat, i: nat, b: Block, a: nat)
    requires k < |l| && i <= |l[k].blocks| && OnlyBlocks(minors, l)
    requires MinorsLinked(minors, l[k]) && a in WithMinor(minors, l[k], i, b)
    ensures exists n: nat, j: nat :: BlockAt(Grown(l, k, i, b), a, n, j)
  {
    OnlyOneMore(minors, l[k], i, b, a);
    if a == b.addr {
      assert BlockAt(Grown(l, k, i, b), a, k, i);
    } else {
      hide MinorsLinked, WithMinor, BlockAt, Grown;
      var n: nat, j: nat :| BlockAt(l, a, n, j);
      StillBlockAt(l, k, i, b, a, n, j);
    }
  }

  /** Linking in a block makes the headers stand for the layout with the block. */
  lemma InsertLinked(majors: map<nat, Major>, minors: map<nat, Minor>, l: Layout, k: nat, i: nat, b: Block)
    requires Regions(l) && k < |l| && Fits(l[k], i, b) && Linked(majors, minors, l)
    ensures Linked(WithUsage(majors, l[k], i, b), WithMinor(minors, l[k], i, b), Grown(l, k, i, b))
  {
    var m := Grown(l, k, i, b);
    var minors' := WithMinor(minors, l[k], i, b);
    InsertMajors(majors, l, k, i, b);
    assert OnlyBlocks(minors', m) by {
      hide Grown, WithMinor, Regions, RegionOk, MinorsLinked, MajorsLinked, BlockAt;
      forall a | a in minors' ensures exists n: nat, j: nat :: BlockAt(m, a, n, j) {
        InsertOnly(minors, l, k, i, b, a);
      }
    }
    hide OnlyBlocks, MajorsLinked, WithMinor, RegionOk, WithUsage, MinorsLinked, Fits;
    forall n | 0 <= n < |m| ensures MinorsLinked(minors', m[n]) {
      if n == k { OwnRegionLinked(minors, l[k], i, b); } else { OtherRegionLinked(minors, l, k, i, b, n); }
    }
  }

  lemma GrownMajor(l: Layout, k: nat, i: nat, b: Block, n: nat)
    requires k < |l| && i <= |l[k].blocks| && n < |l|
    ensures |Grown(l, k, i, b)| == |l| && Grown(l, k, i, b)[n].addr == l[n].addr
    ensures MajorOf(Grown(l, k, i, b), n) == if n != k then MajorOf(l, n) else
            MajorOf(l, n).(usage := MAJOR + Used(l[k].blocks) + b.size + MINOR,
                           first := if i == 0 then b.addr else BlockAddr(l[k], 0))
  {
    InsertSums(l[k].blocks, i, b);
    InsertedAddr(l[k], i, b, 0);
    hide Used, InsertAt, BlockAddr;
  }

  lemma InsertMajors(majors: map<nat, Major>, l: Layout, k: nat, i: nat, b: Block)
    requires Regions(l) && k < |l| && Fits(l[k], i, b) && MajorsLinked(majors, l)
    ensures MajorsLinked(WithUsage(majors, l[k], i, b), Grown(l, k, i, b))
  {
    GrownMajor(l, k, i, b, k);
    RegionsDistinct(l);
    assert majors[l[k].addr] == MajorOf(l, k);
    hide Regions, RegionOk, Used, Grown, BlockAddr, RegionAddr, Fits;
    var majors' := WithUsage(majors, l[k], i, b);
    forall n: nat | n < |l|
      ensures Grown(l, k, i, b)[n].addr in majors'
      ensures majors'[Grown(l, k, i, b)[n].addr] == MajorOf(Grown(l, k, i, b), n)
    {
      GrownMajor(l, k, i, b, n);
      assert majors[l[n].addr] == MajorOf(l, n);
      assert n != k ==> l[n].addr != l[k].addr;
      hide MajorOf, DistinctRegions;
    }
  }

  // ---- A block that goes ---------------------------------------------------------------------

  function WithoutMinor(minors: map<nat, Minor>, a: nat): map<nat, Minor>
    requires a in minors
  {
    var min := minors[a];
    var m1 := if min.next != 0 && min.next in minors
              then minors[min.next := minors[min.next].(prev := min.prev)] else minors;
    var m2 := if min.prev != 0 && min.prev in m1 then m1[min.prev := m1[min.prev].(next := min.next)] else m1;
    m2 - {a}
  }

  ghost function Reduced(l: Layout, k: nat, i: nat): Layout
    requires k < |l| && i < |l[k].blocks|
  {
    l[k := l[k].(blocks := RemoveAt(l[k].blocks, i))]
  }

  lemma RemovedAddr(r: Region, i: nat, j: int)
    requires i < |r.blocks|
    ensures BlockAddr(r.(blocks := RemoveAt(r.blocks, i)), j) == BlockAddr(r, if j < i then j else j + 1)
  {
  }

  lemma WithoutMinorAt(minors: map<nat, Minor>, a: nat, x: nat)
    requires a in minors && x in minors && x != a && x != 0
    ensures x in WithoutMinor(minors, a)
    ensures WithoutMinor(minors, a)[x]
         == minors[x].(prev := if x == minors[a].next then minors[a].prev else minors[x].prev,
                       next := if x == minors[a].prev then minors[a].next else minors[x].next)
  {
  }

  /** The header of another block of region r, with the neighbours it has without block i. */
  lemma RemovedMinor(r: Region, i: nat, j: nat)
    requires i < |r.blocks| && j < |r.blocks| - 1 && Distinct(r.blocks)
    requires forall x :: 0 <= x < |r.blocks| ==> r.blocks[x].addr != 0
    ensures var s := r.(blocks := RemoveAt(r.blocks, i)); var j' := if j < i then j else j + 1;
            && s.blocks[j] == r.blocks[j'] && r.blocks[j'].addr != r.blocks[i].addr
            && MinorOf(s, j) == MinorOf(r, j').(
                prev := if r.blocks[j'].addr == BlockAddr(r, i + 1) then BlockAddr(r, i - 1) else BlockAddr(r, j' - 1),
                next := if r.blocks[j'].addr == BlockAddr(r, i - 1) then BlockAddr(r, i + 1) else BlockAddr(r, j' + 1))
  {
  }

  lemma OwnMinorUnlinked(minors: map<nat, Minor>, r: Region, i: nat, j: nat)
    requires MinorsLinked(minors, r) && i < |r.blocks| && j < |r.blocks| - 1 && Distinct(r.blocks)
    requires forall x :: 0 <= x < |r.blocks| ==> r.blocks[x].addr != 0
    ensures var s := r.(blocks := RemoveAt(r.blocks, i)); var m := WithoutMinor(minors, r.blocks[i].addr);
            s.blocks[j].addr in m && m[s.blocks[j].addr] == MinorOf(s, j)
  {
    var j' := if j < i then j else j + 1;
    assert minors[r.blocks[i].addr] == MinorOf(r, i);
    assert minors[r.blocks[j'].addr] == MinorOf(r, j');
    RemovedMinor(r, i, j);
    hide RemoveAt, WithoutMinor, Distinct, BlockAddr, MinorsLinked;
    WithoutMinorAt(minors, r.blocks[i].addr, r.blocks[j'].addr);
  }

  lemma OwnRegionUnlinked(minors: map<nat, Minor>, r: Region, i: nat)
    requires RegionOk(r) && MinorsLinked(minors, r) && i < |r.blocks|
    ensures MinorsLinked(WithoutMinor(minors, r.blocks[i].addr), r.(blocks := RemoveAt(r.blocks, i)))
  {
    var s := r.(blocks := RemoveAt(r.blocks, i));
    DistinctBlocks(r);
    hide RegionOk, WithoutMinor, Distinct, MinorOf;
    forall j | 0 <= j < |s.blocks|
      ensures s.blocks[j].addr in WithoutMinor(minors, r.blocks[i].addr)
      ensures WithoutMinor(minors, r.blocks[i].addr)[s.blocks[j].addr] == MinorOf(s, j)
    {
      OwnMinorUnlinked(minors, r, i, j);
    }
  }

  lemma OtherRegionUnlinked(minors: map<nat, Minor>, l: Layout, k: nat, i: nat, n: nat)
    requires Regions(l) && k < |l| && n < |l| && n != k && i < |l[k].blocks|
    requires MinorsLinked(minors, l[k]) && MinorsLinked(minors, l[n])
    ensures MinorsLinked(WithoutMinor(minors, l[k].blocks[i].addr), l[n])
  {
  }

  function WithoutUsage(majors: map<nat, Major>, a: nat, min: Minor): map<nat, Major>
    requires a in majors && MINOR + min.size <= majors[a].usage
  {
    var m := majors[a];
    majors[a := m.(usage := m.usage - (min.size + MINOR), first := if min.prev == 0 then min.next else m.first)]
  }

  lemma ReducedMajor(l: Layout, k: nat, i: nat, n: nat)
    requires k < |l| && i < |l[k].blocks| && n < |l|
    ensures MINOR + l[k].blocks[i].size <= Used(l[k].blocks)
    ensures |Reduced(l, k, i)| == |l| && Reduced(l, k, i)[n].addr == l[n].addr
    ensures MajorOf(Reduced(l, k, i), n) == if n != k then MajorOf(l, n) else
            MajorOf(l, n).(usage := MAJOR + Used(l[k].blocks) - (MINOR + l[k].blocks[i].size),
                           first := BlockAddr(l[k], if i == 0 then 1 else 0))
  {
    RemoveSums(l[k].blocks, i);
    RemovedAddr(l[k], i, 0);
    hide Used, RemoveAt, BlockAddr;
  }

  lemma ReducedHeader(majors: map<nat, Major>, l: Layout, k: nat, i: nat, n: nat)
    requires DistinctRegions(l) && k < |l| && i < |l[k].blocks| && n < |l| && MajorsLinked(majors, l)
    requires BlockAddr(l[k], i - 1) == 0 <==> i == 0
    ensures |Reduced(l, k, i)| == |l| && MINOR + l[k].blocks[i].size <= majors[l[k].addr].usage
    ensures var m := Reduced(l, k, i); var majors' := WithoutUsage(majors, l[k].addr, MinorOf(l[k], i));
            m[n].addr in majors' && majors'[m[n].addr] == MajorOf(m, n)
  {
    assert n != k ==> l[n].addr != l[k].addr;
    ReducedMajor(l, k, i, n);
    if n != k { ReducedMajor(l, k, i, k); }
    hide DistinctRegions, Used, BlockAddr, RegionAddr, Reduced;
  }

  lemma FirstHasNoPrev(l: Layout, k: nat, i: nat)
    requires Regions(l) && k < |l| && i < |l[k].blocks|
    ensures BlockAddr(l[k], i - 1) == 0 <==> i == 0
  {
    if i > 0 { BlockInside(l[k], i - 1); }
  }

  lemma RemoveMajors(majors: map<nat, Major>, l: Layout, k: nat, i: nat)
    requires DistinctRegions(l) && k < |l| && i < |l[k].blocks| && MajorsLinked(majors, l)
    requires BlockAddr(l[k], i - 1) == 0 <==> i == 0
    ensures MINOR + l[k].blocks[i].size <= majors[l[k].addr].usage
    ensures MajorsLinked(WithoutUsage(majors, l[k].addr, MinorOf(l[k], i)), Reduced(l, k, i))
  {
    hide Used, BlockAddr, RegionAddr, Reduced, DistinctRegions, MajorOf, WithoutUsage;
    ReducedHeader(majors, l, k, i, k);
    forall n: nat | n < |l|
      ensures Reduced(l, k, i)[n].addr in WithoutUsage(majors, l[k].addr, MinorOf(l[k], i))
      ensures WithoutUsage(majors, l[k].addr, MinorOf(l[k], i))[Reduced(l, k, i)[n].addr]
           == MajorOf(Reduced(l, k, i), n)
    {
      ReducedHeader(majors, l, k, i, n);
    }
  }

  lemma RemoveOnly(minors: map<nat, Minor>, l: Layout, k: nat, i: nat, x: nat)
    requires k < |l| && i < |l[k].blocks| && OnlyBlocks(minors, l) && l[k].blocks[i].addr in minors
    requires x in WithoutMinor(minors, l[k].blocks[i].addr)
    ensures exists n: nat, j: nat :: BlockAt(Reduced(l, k, i), x, n, j)
  {
    assert x in minors && x != l[k].blocks[i].addr;
    var n: nat, j: nat :| BlockAt(l, x, n, j);
    assert n == k ==> j != i;
    assert BlockAt(Reduced(l, k, i), x, n, if n == k && j > i then j - 1 else j);
  }

  /** Unlinking a block makes the headers stand for the layout without it. */
  lemma RemoveLinked(majors: map<nat, Major>, minors: map<nat, Minor>, l: Layout, k: nat, i: nat)
    requires Regions(l) && k < |l| && i < |l[k].blocks| && Linked(majors, minors, l)
    ensures minors[l[k].blocks[i].addr] == MinorOf(l[k], i)
    ensures MINOR + l[k].blocks[i].size <= majors[l[k].addr].usage
    ensures Linked(WithoutUsage(majors, l[k].addr, MinorOf(l[k], i)), WithoutMinor(minors, l[k].blocks[i].addr),
            Reduced(l, k, i))
  {
    var m := Reduced(l, k, i);
    var a := l[k].blocks[i].addr;
    assert minors[a] == MinorOf(l[k], i);
    var minors' := WithoutMinor(minors, a);
    RegionsDistinct(l);
    FirstHasNoPrev(l, k, i);
    RemoveMajors(majors, l, k, i);
    hide DistinctRegions;
    assert OnlyBlocks(minors', m) by {
      hide Reduced, WithoutMinor, Regions, RegionOk, MinorsLinked, MajorsLinked, BlockAt;
      forall x | x in minors' ensures exists n: nat, j: nat :: BlockAt(m, x, n, j) {
        RemoveOnly(minors, l, k, i, x);
      }
    }
    hide OnlyBlocks, MajorsLinked, WithoutMinor, RegionOk, WithoutUsage, MinorsLinked;
    forall n | 0 <= n < |m| ensures MinorsLinked(minors', m[n]) {
      if n == k { OwnRegionUnlinked(minors, l[k], i); } else { OtherRegionUnlinked(minors, l, k, i, n); }
    }
  }

  // ---- Regions that come and go --------------------------------------------------------------

  function WithRegion(majors: map<nat, Major>, last: nat, r: Region): map<nat, Major>
    requires last != 0 ==> last in majors
  {
    var m := majors[r.addr := Major(last, 0, r.pages, Size(r), MAJOR, 0)];
    if last != 0 then m[last := m[last].(next := r.addr)] else m
  }

  ghost predicate DistinctRegions(l: Layout) {
    && (forall j: nat, k: nat :: j < k < |l| ==> l[j].addr != l[k].addr)
    && (forall j: nat :: j < |l| ==> l[j].addr != 0)
  }

  lemma RegionsDistinct(l: Layout)
    requires Regions(l)
    ensures DistinctRegions(l)
  {
  }

  lemma AppendedMajor(l: Layout, r: Region, n: nat)
    requires n < |l|
    ensures (l + [r])[n] == l[n]
    ensures MajorOf(l + [r], n) == MajorOf(l, n).(next := if n == |l| - 1 then r.addr else RegionAddr(l, n + 1))
  {
  }

  lemma AppendedHeader(majors: map<nat, Major>, l: Layout, r: Region, n: nat)
    requires DistinctRegions(l + [r]) && MajorsLinked(majors, l) && n < |l|
    ensures RegionAddr(l, |l| - 1) in majors
    ensures var m := WithRegion(majors, RegionAddr(l, |l| - 1), r);
            l[n].addr in m && m[l[n].addr] == MajorOf(l + [r], n)
  {
    assert majors[l[|l| - 1].addr] == MajorOf(l, |l| - 1);
    AppendedMajor(l, r, n);
    var m := l + [r];
    assert m[n] == l[n] && m[|l| - 1] == l[|l| - 1] && m[|l|] == r;
    hide Used, BlockAddr;
  }

  lemma AppendMajors(majors: map<nat, Major>, l: Layout, r: Region)
    requires DistinctRegions(l + [r]) && r.blocks == [] && MajorsLinked(majors, l)
    ensures RegionAddr(l, |l| - 1) != 0 ==> RegionAddr(l, |l| - 1) in majors
    ensures MajorsLinked(WithRegion(majors, RegionAddr(l, |l| - 1), r), l + [r])
  {
    var m := l + [r];
    assert m[|l|] == r && Used([]) == 0;
    assert |l| > 0 ==> m[|l| - 1] == l[|l| - 1];
    forall n: nat | n < |l|
      ensures m[n] == l[n]
      ensures RegionAddr(l, |l| - 1) in majors
      ensures l[n].addr in WithRegion(majors, RegionAddr(l, |l| - 1), r)
      ensures WithRegion(majors, RegionAddr(l, |l| - 1), r)[l[n].addr] == MajorOf(m, n)
    {
      hide MajorsLinked, BlockAddr, Used, WithRegion, MajorOf;
      AppendedHeader(majors, l, r, n);
    }
  }

  lemma AppendLinked(majors: map<nat, Major>, minors: map<nat, Minor>, l: Layout, r: Region)
    requires Regions(l) && Grantable(l, r) && r.blocks == [] && PAGE_COUNT <= r.pages && Linked(majors, minors, l)
    ensures RegionAddr(l, |l| - 1) != 0 ==> RegionAddr(l, |l| - 1) in majors
    ensures Linked(WithRegion(majors, RegionAddr(l, |l| - 1), r), minors, l + [r])
  {
    AppendKeepsRegions(l, r);
    RegionsDistinct(l + [r]);
    hide Regions, RegionOk, Grantable, DistinctRegions, WithRegion, MajorsLinked, OnlyBlocks, MinorOf;
    AppendMajors(majors, l, r);
    AppendMinors(minors, l, r);
  }

  lemma AppendMinors(minors: map<nat, Minor>, l: Layout, r: Region)
    requires OnlyBlocks(minors, l)
    ensures OnlyBlocks(minors, l + [r])
  {
    forall a | a in minors ensures exists k: nat, i: nat :: BlockAt(l + [r], a, k, i) {
      var k: nat, i: nat :| BlockAt(l, a, k, i);
      assert BlockAt(l + [r], a, k, i);
    }
  }

  function WithoutRegion(majors: map<nat, Major>, a: nat): map<nat, Major>
    requires a in majors
  {
    var maj := majors[a];
    var m1 := if maj.prev != 0 && maj.prev in majors
              then majors[maj.prev := majors[maj.prev].(next := maj.next)] else majors;
    var m2 := if maj.next != 0 && maj.next in m1 then m1[maj.next := m1[maj.next].(prev := maj.prev)] else m1;
    m2 - {a}
  }

  lemma WithoutRegionAt(majors: map<nat, Major>, a: nat, x: nat)
    requires a in majors && x in majors && x != a && x != 0
    ensures x in WithoutRegion(majors, a)
    ensures WithoutRegion(majors, a)[x]
         == majors[x].(prev := if x == majors[a].next then majors[a].prev else majors[x].prev,
                       next := if x == majors[a].prev then majors[a].next else majors[x].next)
  {
  }

  /** The header of another region, with the neighbours it has without region k. */
  lemma RemovedMajor(l: Layout, k: nat, n: nat)
    requires DistinctRegions(l) && k < |l| && n < |l| - 1
    ensures var m := RemoveAt(l, k); var n' := if n < k then n else n + 1;
            && m[n] == l[n'] && l[n'].addr != l[k].addr
            && MajorOf(m, n) == MajorOf(l, n').(
                prev := if l[n'].addr == RegionAddr(l, k + 1) then RegionAddr(l, k - 1) else RegionAddr(l, n' - 1),
                next := if l[n'].addr == RegionAddr(l, k - 1) then RegionAddr(l, k + 1) else RegionAddr(l, n' + 1))
  {
  }

  lemma MajorUnlinked(majors: map<nat, Major>, l: Layout, k: nat, n: nat)
    requires DistinctRegions(l) && k < |l| && n < |l| - 1 && MajorsLinked(majors, l)
    ensures var m := RemoveAt(l, k); var majors' := WithoutRegion(majors, l[k].addr);
            m[n].addr in majors' && majors'[m[n].addr] == MajorOf(m, n)
  {
    var n' := if n < k then n else n + 1;
    assert majors[l[k].addr] == MajorOf(l, k);
    assert majors[l[n'].addr] == MajorOf(l, n');
    RemovedMajor(l, k, n);
    assert l[n'].addr != 0;
    hide RemoveAt, WithoutRegion, DistinctRegions, RegionAddr, MajorsLinked, Used, BlockAddr;
    WithoutRegionAt(majors, l[k].addr, l[n'].addr);
  }

  /** Unlinking an emptied region makes the headers stand for the layout without it. */
  lemma RegionUnlinked(majors: map<nat, Major>, minors: map<nat, Minor>, l: Layout, k: nat)
    requires Regions(l) && k < |l| && l[k].blocks == [] && Linked(majors, minors, l)
    ensures l[k].addr in majors
    ensures Linked(WithoutRegion(majors, l[k].addr), minors, RemoveAt(l, k))
  {
    RegionsDistinct(l);
    UnlinkedMinors(minors, l, k);
    hide Regions, RegionOk, DistinctRegions, WithoutRegion, OnlyBlocks, MinorsLinked, MajorOf;
    forall n | 0 <= n < |RemoveAt(l, k)|
      ensures RemoveAt(l, k)[n].addr in WithoutRegion(majors, l[k].addr)
      ensures WithoutRegion(majors, l[k].addr)[RemoveAt(l, k)[n].addr] == MajorOf(RemoveAt(l, k), n)
    {
      MajorUnlinked(majors, l, k, n);
    }
  }

  lemma UnlinkedMinors(minors: map<nat, Minor>, l: Layout, k: nat)
    requires k < |l| && l[k].blocks == [] && OnlyBlocks(minors, l)
    requires forall n :: 0 <= n < |l| ==> MinorsLinked(minors, l[n])
    ensures OnlyBlocks(minors, RemoveAt(l, k))
    ensures forall n :: 0 <= n < |l| - 1 ==> MinorsLinked(minors, RemoveAt(l, k)[n])
  {
    hide MinorsLinked;
    forall a | a in minors ensures exists n: nat, j: nat :: BlockAt(RemoveAt(l, k), a, n, j) {
      var n: nat, j: nat :| BlockAt(l, a, n, j);
      assert BlockAt(RemoveAt(l, k), a, if n < k then n else n - 1, j);
    }
  }
}
