/** The table of physical frames (src/mm/paging.c).

    One array of 2^20 numbers counts the uses of frames of two sizes.  Index i < 1024 stands for
    the 4 MiB frame i, index i >= 1024 for the 4 KiB frame i, which lies inside the 4 MiB frame
    i / 1024.  The first 1024 small frames have no entry of their own. */
module FrameTable {

  const LARGE_NUM: nat := 1024
  const SMALL_NUM: nat := 0x10_0000
  const PER_LARGE: nat := 1024
  const NUM_PREALLOCATED: nat := 3

  const UNUSED: int := 0
  const KERNEL: int := -1
  const UNAVAILABLE: int := -2

  // Both scans count with a 16-bit variable.
  const SCAN_WRAP: nat := 0x1_0000
  // First 4 MiB frame whose scan cannot end: its last small frame is number 65535.
  const LARGE_SCAN_LIMIT: nat := 63

  type Table = seq<int>

  ghost predicate WellSized(p: Table) {
    |p| == SMALL_NUM && p[0] == KERNEL
  }

  /** All small frames of the large frame `l` are unused. */
  ghost predicate SmallsUnused(p: Table, l: nat)
    requires |p| == SMALL_NUM && l < LARGE_NUM
  {
    forall i :: l * PER_LARGE <= i < (l + 1) * PER_LARGE ==> p[i] == UNUSED
  }

  ghost predicate LargeFree(p: Table, l: nat)
    requires |p| == SMALL_NUM && l < LARGE_NUM
  {
    p[l] == UNUSED && SmallsUnused(p, l)
  }

  ghost predicate SmallFree(p: Table, s: nat)
    requires |p| == SMALL_NUM && LARGE_NUM <= s < SMALL_NUM
  {
    p[s] == UNUSED && p[s / PER_LARGE] == UNUSED
  }

  /** What the allocator accepts: free frames, except that no large frame from 252 MiB on is. */
  ghost predicate Acceptable(p: Table, f: nat, large: bool)
    requires |p| == SMALL_NUM
  {
    if large then f < LARGE_SCAN_LIMIT && LargeFree(p, f)
    else LARGE_NUM <= f < SMALL_NUM && SmallFree(p, f)
  }

  ghost function ScanEnd(large: bool): nat {
    if large then LARGE_NUM else SMALL_NUM
  }

  ghost function FirstAcceptable(p: Table, large: bool, from: nat): (f: nat)
    requires |p| == SMALL_NUM && from <= ScanEnd(large)
    ensures f == 0 || (from <= f < ScanEnd(large) && Acceptable(p, f, large))
    decreases ScanEnd(large) - from
  {
    if from == ScanEnd(large) then 0
    else if Acceptable(p, from, large) then from
    else FirstAcceptable(p, large, from + 1)
  }

  /** The frame that alloc_phys_mem hands out, or 0 when there is none. */
  ghost function Chosen(p: Table, large: bool): nat
    requires |p| == SMALL_NUM
  {
    FirstAcceptable(p, large, if large then 0 else LARGE_NUM)
  }

  lemma {:induction false} FirstAcceptableIsFirst(p: Table, large: bool, from: nat)
    requires WellSized(p) && from <= ScanEnd(large)
    ensures var f := FirstAcceptable(p, large, from);
      && (f == 0 ==> forall g :: from <= g < ScanEnd(large) ==> !Acceptable(p, g, large))
      && (f != 0 ==> forall g :: from <= g < f ==> !Acceptable(p, g, large))
    decreases ScanEnd(large) - from
  {
    if from < ScanEnd(large) && !Acceptable(p, from, large) {
      FirstAcceptableIsFirst(p, large, from + 1);
    }
  }

  /** alloc_phys_mem is first fit, and complete for small frames: it fails only when no small
      frame is free.  For large frames it fails exactly when none below 252 MiB is free. */
  lemma ChosenIsFirstFit(p: Table, large: bool)
    requires WellSized(p)
    ensures var f := Chosen(p, large);
      && (f != 0 <==> exists g :: Acceptable(p, g, large))
      && (f != 0 ==> Acceptable(p, f, large) && forall g :: Acceptable(p, g, large) ==> f <= g)
  {
    FirstAcceptableIsFirst(p, large, if large then 0 else LARGE_NUM);
  }

  /** How far the scans reach: a free 4 MiB frame is found exactly below 252 MiB, and free 4 KiB frames one
      behind the other exactly if they end below 256 MiB. */
  lemma ReachOfScans(p: Table, f: nat, start: nat, num: nat)
    requires |p| == SMALL_NUM && f < LARGE_NUM && LARGE_NUM <= start < SMALL_NUM && start + num <= SMALL_NUM
    ensures LargeFree(p, f) ==> (Acceptable(p, f, true) <==> f * 0x40_0000 < 252 * 0x10_0000)
    ensures (forall j :: start <= j < start + num ==> SmallFree(p, j)) ==>
              (RunAcceptable(p, start, num) <==> (start + num) * 0x1000 < 256 * 0x10_0000)
    ensures Acceptable(p, f, true) ==> LargeFree(p, f)
    ensures Acceptable(p, start, false) <==> SmallFree(p, start)
    ensures RunAcceptable(p, start, num) ==> forall j :: start <= j < start + num ==> SmallFree(p, j)
  {
  }

  /** A machine whose one free 4 MiB frame is number 63. */
  ghost function OnlyLast(): Table {
    seq(SMALL_NUM, i requires 0 <= i < SMALL_NUM =>
      if i < NUM_PREALLOCATED then KERNEL
      else if i == LARGE_SCAN_LIMIT || i / PER_LARGE == LARGE_SCAN_LIMIT then UNUSED
      else UNAVAILABLE)
  }

  /** It is above the reach of the 16-bit counter and not found. */
  lemma FreeFrameRefused()
    ensures Good(OnlyLast()) && LargeFree(OnlyLast(), LARGE_SCAN_LIMIT) && Chosen(OnlyLast(), true) == 0
  {
    ChosenIsFirstFit(OnlyLast(), true);
  }

  /** The 4 KiB physical pages that a frame covers. */
  predicate Covers(f: nat, page: nat) {
    if f < LARGE_NUM then f * PER_LARGE <= page < (f + 1) * PER_LARGE else page == f
  }

  /** A frame shares no physical page with one that is taken or missing. */
  ghost predicate Untouched(p: Table, f: nat)
    requires |p| == SMALL_NUM
  {
    forall g: nat, page: nat :: g < SMALL_NUM && Covers(f, page) && Covers(g, page) ==> p[g] == UNUSED
  }

  /** That is what free means for a frame of either size, if it has an entry. */
  lemma FreeMeansUntouched(p: Table, f: nat)
    requires WellSized(p) && f < SMALL_NUM
    ensures 0 < f < LARGE_NUM ==> (LargeFree(p, f) <==> Untouched(p, f))
    ensures f >= LARGE_NUM ==> (SmallFree(p, f) <==> Untouched(p, f))
  {
    if f >= LARGE_NUM {
      assert Covers(f, f) && Covers(f / PER_LARGE, f);
    } else if f > 0 {
      assert Covers(f, f * PER_LARGE);
      if Untouched(p, f) {
        forall i: nat | f * PER_LARGE <= i < (f + 1) * PER_LARGE ensures p[i] == UNUSED {
          assert Covers(f, i) && Covers(i, i);
        }
      }
      if LargeFree(p, f) {
        forall g: nat, page: nat | g < SMALL_NUM && Covers(f, page) && Covers(g, page) ensures p[g] == UNUSED {
          assert g < LARGE_NUM ==> g == f;
        }
      }
    }
  }

  ghost predicate InUse(p: Table, f: nat)
    requires |p| == SMALL_NUM && f < SMALL_NUM
  {
    p[f] != UNUSED && p[f] != UNAVAILABLE
  }

  /** A small frame in use lies in a large frame that is wholly available and not itself in use. */
  ghost predicate Exclusive(p: Table)
    requires |p| == SMALL_NUM
  {
    forall s :: LARGE_NUM <= s < SMALL_NUM && InUse(p, s) ==> p[s / PER_LARGE] == UNUSED
  }

  ghost predicate Good(p: Table) {
    WellSized(p) && Exclusive(p)
  }

  /** In a good table two different frames in use share no physical page. */
  lemma FramesInUseAreDisjoint(p: Table, f: nat, g: nat, page: nat)
    requires Good(p) && f < SMALL_NUM && g < SMALL_NUM && f != g
    requires InUse(p, f) && InUse(p, g)
    ensures !(Covers(f, page) && Covers(g, page))
  {
  }

  /** Taking an acceptable frame keeps the two sizes apart. */
  lemma TakeKeepsGood(p: Table, f: nat, large: bool, mark: int)
    requires Good(p) && Acceptable(p, f, large)
    ensures Good(p[f := mark])
  {
  }

  /** Changing the use count of a frame that stays in use, or giving it up, does too. */
  lemma ChangeKeepsGood(p: Table, f: nat, mark: int)
    requires Good(p) && 0 < f < SMALL_NUM && InUse(p, f)
    ensures Good(p[f := mark])
  {
  }

  /** What alloc_phys_mem_consecutive accepts. */
  ghost predicate RunAcceptable(p: Table, start: nat, num: nat)
    requires |p| == SMALL_NUM
  {
    && LARGE_NUM <= start && start + num < SCAN_WRAP
    && forall j :: start <= j < start + num ==> SmallFree(p, j)
  }

  ghost function FirstRun(p: Table, num: nat, from: nat): (f: nat)
    requires |p| == SMALL_NUM && LARGE_NUM <= from <= SMALL_NUM
    ensures f == 0 || (from <= f < SMALL_NUM && RunAcceptable(p, f, num))
    decreases SMALL_NUM - from
  {
    if from == SMALL_NUM then 0
    else if RunAcceptable(p, from, num) then from
    else FirstRun(p, num, from + 1)
  }

  ghost function MarkRun(p: Table, start: nat, num: nat): (q: Table)
    requires start + num <= |p|
    ensures |q| == |p|
  {
    seq(|p|, i requires 0 <= i < |p| => if start <= i < start + num then KERNEL else p[i])
  }

  lemma {:induction false} FirstRunIsFirst(p: Table, num: nat, from: nat)
    requires WellSized(p) && LARGE_NUM <= from <= SMALL_NUM
    ensures var f := FirstRun(p, num, from);
      && (f == 0 ==> forall g :: from <= g < SMALL_NUM ==> !RunAcceptable(p, g, num))
      && (f != 0 ==> forall g :: from <= g < f ==> !RunAcceptable(p, g, num))
    decreases SMALL_NUM - from
  {
    if from < SMALL_NUM && !RunAcceptable(p, from, num) {
      FirstRunIsFirst(p, num, from + 1);
    }
  }

  /** Consecutive allocation gives the lowest run of free small frames that ends below 256 MiB,
      and fails exactly when there is none; taking the run keeps the two sizes apart. */
  lemma FirstRunIsFirstFit(p: Table, num: nat)
    requires Good(p)
    ensures var f := FirstRun(p, num, LARGE_NUM);
      && (f != 0 <==> exists g :: RunAcceptable(p, g, num))
      && (f != 0 ==> RunAcceptable(p, f, num) && Good(MarkRun(p, f, num)))
      && (f != 0 ==> forall g :: RunAcceptable(p, g, num) ==> f <= g)
  {
    FirstRunIsFirst(p, num, LARGE_NUM);
    var f := FirstRun(p, num, LARGE_NUM);
    if f != 0 {
      var q := MarkRun(p, f, num);
      forall s | LARGE_NUM <= s < SMALL_NUM && InUse(q, s)
        ensures q[s / PER_LARGE] == UNUSED
      {
        if f <= s < f + num {
          assert SmallFree(p, s);
        }
      }
    }
  }

  // ---- The memory map of the boot loader ----------------------------------------------------

  const WORD: nat := 0x1_0000_0000
  const SMALL_SIZE: nat := 4096
  const LARGE_SIZE: nat := 0x40_0000

  /** One entry of the multiboot memory map; `kind` 1 is usable memory. */
  datatype Region = Region(baseHigh: nat, baseLow: nat, lengthHigh: nat, lengthLow: nat, kind: nat)

  predicate WordSized(r: Region) {
    r.baseHigh < WORD && r.baseLow < WORD && r.lengthHigh < WORD && r.lengthLow < WORD
  }

  predicate Considered(r: Region) {
    r.baseHigh == 0 && r.kind == 1
  }

  function TillEnd(r: Region): bool {
    r.lengthHigh != 0 || r.baseLow + r.lengthLow >= WORD
  }

  /** First frame of the region, rounded up with 32-bit arithmetic. */
  function Start(r: Region, size: nat): nat
    requires size > 0
  {
    var ceiling := (r.baseLow - 1) % WORD / size + 1;
    var reserved := NUM_PREALLOCATED * LARGE_SIZE / size;
    if ceiling < reserved then reserved else ceiling
  }

  function End(r: Region, size: nat): nat
    requires size > 0
  {
    if TillEnd(r) then WORD / size else (r.baseLow + r.lengthLow) / size
  }

  function SizeOf(f: nat): nat {
    if f < LARGE_NUM then LARGE_SIZE else SMALL_SIZE
  }

  predicate Marks(r: Region, f: nat) {
    Considered(r) && Start(r, SizeOf(f)) <= f < End(r, SizeOf(f))
  }

  function WithoutKernel(regions: seq<Region>, f: nat): int {
    if exists r :: r in regions && Marks(r, f) then UNUSED else UNAVAILABLE
  }

  lemma OneMoreRegion(regions: seq<Region>, r: Region)
    ensures forall f: nat ::
              WithoutKernel(regions + [r], f) == if Marks(r, f) then UNUSED else WithoutKernel(regions, f)
  {
  }

  function InitialEntry(regions: seq<Region>, f: nat): int {
    if f < NUM_PREALLOCATED then KERNEL else WithoutKernel(regions, f)
  }

  ghost function InitialTable(regions: seq<Region>): Table {
    seq(SMALL_NUM, i requires 0 <= i < SMALL_NUM => InitialEntry(regions, i))
  }

  /** A region marks exactly the frames behind the first 12 MiB that lie wholly inside it, save
      that a region based at address 0 marks none: its rounded-up start wraps to the end. */
  lemma MarksMeansInside(r: Region, f: nat)
    requires WordSized(r) && Considered(r) && f < SMALL_NUM
    ensures Marks(r, f) <==>
      && r.baseLow != 0
      && NUM_PREALLOCATED * LARGE_SIZE <= f * SizeOf(f)
      && r.baseLow <= f * SizeOf(f)
      && (f + 1) * SizeOf(f) <= if TillEnd(r) then WORD else r.baseLow + r.lengthLow
  {
    var b := r.baseLow;
    if b != 0 {
      assert (b - 1) % WORD == b - 1;
    }
    if f < LARGE_NUM {
      assert b != 0 ==> ((b - 1) / 0x40_0000 + 1 <= f <==> b <= f * 0x40_0000);
    } else {
      assert b != 0 ==> ((b - 1) / 4096 + 1 <= f <==> b <= f * 4096);
    }
  }

  /** The addresses that a frame covers lie in a usable region behind the first 12 MiB. */
  predicate Usable(r: Region, from: nat, size: nat) {
    && r.baseHigh == 0 && r.kind == 1 && 0 < r.baseLow <= from && 0xC0_0000 <= from
    && (if r.lengthHigh != 0 then from + size <= 0x1_0000_0000
        else from + size <= r.baseLow + r.lengthLow && from + size <= 0x1_0000_0000)
  }

  /** What boot makes of every entry: the first three belong to the kernel, and any other is free exactly
      if one of the regions has all of its addresses, 4 MiB below entry 1024 and 4 KiB from there on. */
  lemma BootEntry(regions: seq<Region>, f: nat)
    requires (forall k :: 0 <= k < |regions| ==> WordSized(regions[k])) && f < SMALL_NUM
    ensures var e := InitialTable(regions)[f]; var size := if f < 1024 then 0x40_0000 else 0x1000;
            if f < 3 then e == KERNEL
            else if exists r :: r in regions && Usable(r, f * size, size) then e == UNUSED
            else e == UNAVAILABLE
  {
    forall r | r in regions
      ensures Marks(r, f) <==> Usable(r, f * SizeOf(f), SizeOf(f))
    {
      if Considered(r) { MarksMeansInside(r, f); }
    }
  }

  /** A region of 256 MiB from address 0 on makes no frame usable. */
  lemma RegionFromZero(f: nat)
    requires f < SMALL_NUM
    ensures WordSized(Region(0, 0, 0, 0x1000_0000, 1)) && Considered(Region(0, 0, 0, 0x1000_0000, 1))
    ensures !Marks(Region(0, 0, 0, 0x1000_0000, 1), f)
  {
    MarksMeansInside(Region(0, 0, 0, 0x1000_0000, 1), f);
  }

  /** At boot the table is good, and a large frame offered is available in all its small parts. */
  lemma InitialTableGood(regions: seq<Region>)
    requires forall k :: 0 <= k < |regions| ==> WordSized(regions[k])
    ensures Good(InitialTable(regions))
    ensures forall l :: 0 <= l < LARGE_NUM && InitialTable(regions)[l] == UNUSED
              ==> SmallsUnused(InitialTable(regions), l)
  {
  }

  /** Addition of one to a signed 16-bit number. */
  function Increment(n: int): int {
    if n == 0x7FFF then -0x8000 else n + 1
  }

  /** In 16 bits it is one more. */
  lemma IncrementIsOneMore(n: int)
    requires -0x8000 <= n < 0x8000
    ensures -0x8000 <= Increment(n) < 0x8000 && (Increment(n) - n) % 0x1_0000 == 1
  {
  }

  class FrameDirectory {
    const entries: array<int>

    ghost predicate Valid()
      reads this, entries
    {
      entries.Length == SMALL_NUM && WellSized(entries[..])
    }

    ghost function Table(): Table
      reads this, entries
    {
      entries[..]
    }

    constructor ()
      ensures fresh(entries) && entries.Length == SMALL_NUM
    {
      entries := new int[SMALL_NUM];
    }

    /** The part of init_page that fills the table. */
    method Init(regions: seq<Region>)
      requires entries.Length == SMALL_NUM
      requires forall k :: 0 <= k < |regions| ==> WordSized(regions[k])
      modifies entries
      ensures Valid()
      ensures Table() == InitialTable(regions)
    {
      for i := 0 to SMALL_NUM
        invariant forall f :: 0 <= f < i ==> entries[f] == UNAVAILABLE
      {
        entries[i] := UNAVAILABLE;
      }
      for k := 0 to |regions|
        invariant forall f :: 0 <= f < SMALL_NUM ==> entries[f] == WithoutKernel(regions[..k], f)
      {
        hide WithoutKernel;
        var r := regions[k];
        if Considered(r) {
          MarkRange(Start(r, SMALL_SIZE), End(r, SMALL_SIZE));
          MarkRange(Start(r, LARGE_SIZE), End(r, LARGE_SIZE));
        }
        assert regions[..k + 1] == regions[..k] + [r];
        OneMoreRegion(regions[..k], r);
      }
      assert regions[..|regions|] == regions;
      for i := 0 to NUM_PREALLOCATED
        invariant forall f :: 0 <= f < i ==> entries[f] == KERNEL
        invariant forall f :: i <= f < SMALL_NUM ==> entries[f] == WithoutKernel(regions, f)
      {
        entries[i] := KERNEL;
      }
      assert Table() == InitialTable(regions);
    }

    method MarkRange(start: nat, end: nat)
      requires end <= entries.Length
      modifies entries
      ensures forall f :: 0 <= f < entries.Length ==>
        entries[f] == if start <= f < end then UNUSED else old(entries[f])
    {
      var i := start;
      while i < end
        invariant forall f :: 0 <= f < entries.Length ==>
          entries[f] == if start <= f < i && f < end then UNUSED else old(entries[f])
      {
        entries[i] := UNUSED;
        i := i + 1;
      }
    }

    /** free_phys_mem.  The source panics unless the entry fits the kind of memory freed. */
    method Free(frame: nat, user: bool)
      requires Valid() && 0 < frame < SMALL_NUM
      requires if user then entries[frame] > 0 else entries[frame] == KERNEL
      modifies entries
      ensures Valid()
      ensures Table() == old(Table())[frame := if user then old(entries[frame]) - 1 else UNUSED]
    {
      if entries[frame] == KERNEL {
        entries[frame] := UNUSED;
      } else {
        entries[frame] := entries[frame] - 1;
      }
    }

    /** use_phys_mem on a user frame, with the 16-bit wrap of the entry. */
    method Use(frame: nat)
      requires Valid() && frame < SMALL_NUM && entries[frame] > 0
      modifies entries
      ensures Valid()
      ensures Table() == old(Table())[frame := Increment(old(entries[frame]))]
    {
      entries[frame] := Increment(entries[frame]);
    }

    /** alloc_phys_mem: result 0 stands for NULL (frame 0 is the kernel's for ever). */
    method Alloc(large: bool, user: bool) returns (frame: nat)
      requires Valid()
      modifies entries
      ensures Valid()
      ensures frame == Chosen(old(Table()), large)
      ensures Table() == if frame == 0 then old(Table())
                         else old(Table())[frame := if user then 1 else KERNEL]
    {
      var index: nat := if large then 0 else LARGE_NUM;
      var end: nat := if large then LARGE_NUM else SMALL_NUM;
      while index < end
        invariant index <= end == ScanEnd(large)
        invariant entries[..] == old(entries[..])
        invariant Chosen(old(Table()), large) == FirstAcceptable(old(Table()), large, index)
      {
        if entries[index] == 0 {
          var taken;
          if large {
            taken := SomeSmallTaken(index);
          } else {
            taken := entries[index / PER_LARGE] != 0;
          }
          if !taken {
            assert Acceptable(old(Table()), index, large);
            entries[index] := if user then 1 else KERNEL;
            return index;
          }
        }
        index := index + 1;
      }
      return 0;
    }

    /** The inner scan of alloc_phys_mem with its 16-bit counter.  From frame 63 on the counter
        never passes the bound; the scan then wraps to entry 0 and reports a taken frame. */
    method SomeSmallTaken(index: nat) returns (taken: bool)
      requires Valid() && index < LARGE_NUM
      ensures taken <==> !(index < LARGE_SCAN_LIMIT && SmallsUnused(Table(), index))
    {
      var i := index * PER_LARGE % SCAN_WRAP;
      taken := false;
      while i < (index + 1) * PER_LARGE && !taken
        invariant 0 <= i < SCAN_WRAP
        invariant index < LARGE_SCAN_LIMIT ==> index * PER_LARGE <= i <= (index + 1) * PER_LARGE
        invariant taken ==> entries[i] != 0
        invariant taken && index < LARGE_SCAN_LIMIT ==> i < (index + 1) * PER_LARGE
        invariant index < LARGE_SCAN_LIMIT ==> forall k :: index * PER_LARGE <= k < i ==> entries[k] == 0
        decreases !taken, if index < LARGE_SCAN_LIMIT || i != 0 then SCAN_WRAP - i else 0
      {
        if entries[i] != 0 {
          taken := true;
        } else {
          i := (i + 1) % SCAN_WRAP;
        }
      }
    }

    /** alloc_phys_mem_consecutive. */
    method AllocRun(num: nat) returns (start: nat)
      requires Valid()
      modifies entries
      ensures Valid()
      ensures start == FirstRun(old(Table()), num, LARGE_NUM)
      ensures start == 0 ==> Table() == old(Table())
      ensures start != 0 ==> start + num <= SMALL_NUM && Table() == MarkRun(old(Table()), start, num)
    {
      start := LARGE_NUM;
      while start < SMALL_NUM
        invariant LARGE_NUM <= start <= SMALL_NUM
        invariant entries[..] == old(entries[..])
        invariant FirstRun(old(Table()), num, LARGE_NUM) == FirstRun(old(Table()), num, start)
      {
        var taken := SomeOfRunTaken(start, num);
        if !taken {
          TakeRun(start, num);
          return;
        }
        start := start + 1;
      }
      start := 0;
    }

    /** The marking loop. */
    method TakeRun(start: nat, num: nat)
      requires Valid() && 0 < start && start + num <= SMALL_NUM
      modifies entries
      ensures Valid() && Table() == MarkRun(old(Table()), start, num)
    {
      var j := start;
      while j < start + num
        invariant start <= j <= start + num
        invariant entries[..] == MarkRun(old(Table()), start, j - start)
      {
        entries[j] := KERNEL;
        j := j + 1;
      }
    }

    method SomeOfRunTaken(start: nat, num: nat) returns (taken: bool)
      requires Valid() && LARGE_NUM <= start < SMALL_NUM
      ensures taken <==> !RunAcceptable(Table(), start, num)
    {
      taken := false;
      var j := start % SCAN_WRAP;
      while j < start + num && !taken
        invariant 0 <= j < SCAN_WRAP
        invariant start + num < SCAN_WRAP ==> start <= j <= start + num
        invariant taken ==> entries[j / PER_LARGE] != 0 || entries[j] != 0
        invariant taken && start + num < SCAN_WRAP ==> j < start + num
        invariant start + num < SCAN_WRAP ==> forall k :: start <= k < j ==> SmallFree(Table(), k)
        decreases !taken, if start + num < SCAN_WRAP || j != 0 then SCAN_WRAP - j else 0
      {
        if entries[j / PER_LARGE] != 0 || entries[j] != 0 {
          taken := true;
        } else {
          j := (j + 1) % SCAN_WRAP;
        }
      }
      if taken && start + num < SCAN_WRAP {
        assert !SmallFree(Table(), j);
      }
    }
  }
}
