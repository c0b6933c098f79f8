/** The growing pointer array (src/structure/array.c).  A pointer is a number, 0 the null pointer;
    beyond its end an array reads as null.

    The new length is a shift of 1 whose count the processor takes modulo 32, and its size in bytes a
    product of 32 bits.  For large indices one or the other wraps, or the heap gets a request that it
    cuts, and the array does not have the memory that its length promises. */
module GrowArrays {
  import HeapLayout
  import KernelHeap

  const WORD: nat := 0x1_0000_0000
  const ENTRY_BYTES: nat := 4

  /** Up to here a request of the array is one the heap can meet. */
  const INDEX_LIMIT: nat := 0x200_0000

  function Pow2(n: nat): (p: nat)
    ensures p > 0
  {
    if n == 0 then 1 else 2 * Pow2(n - 1)
  }

  /** The number of the highest set bit, -1 for zero. */
  function Bsr(i: nat): (b: int)
    ensures b >= -1
  {
    if i == 0 then -1 else 1 + Bsr(i / 2)
  }

  /** The length array_set grows to for index i. */
  function NewSize(i: nat): nat {
    Pow2((Bsr(i) + 1) % 32)
  }

  function BytesFor(i: nat): nat {
    ENTRY_BYTES * NewSize(i) % WORD
  }

  /** The number of entries of the grown array for which the heap has memory: a larger request than
      the heap can meet is cut, and then nothing is certain. */
  function Room(i: nat): nat {
    if BytesFor(i) <= KernelHeap.MAX_REQUEST then BytesFor(i) / ENTRY_BYTES else 0
  }

  // ---- Powers of two -------------------------------------------------------------------------

  lemma {:induction false} Pow2Monotone(m: nat, n: nat)
    requires m <= n
    ensures Pow2(m) <= Pow2(n)
  {
    if m < n { Pow2Monotone(m, n - 1); }
  }

  lemma {:induction false} Pow2Add(m: nat, n: nat)
    ensures Pow2(m + n) == Pow2(m) * Pow2(n)
  {
    if n > 0 { Pow2Add(m, n - 1); }
  }

  lemma Pow2Values()
    ensures Pow2(23) == 0x80_0000 && Pow2(25) == 0x200_0000 && Pow2(26) == 0x400_0000
    ensures Pow2(29) == 0x2000_0000 && Pow2(30) == 0x4000_0000 && Pow2(31) == 0x8000_0000 && Pow2(32) == WORD
  {
    assert Pow2(3) == 8 && Pow2(5) == 32 && Pow2(2) == 4 && Pow2(1) == 2;
    Pow2Add(5, 5);
    Pow2Add(10, 10);
    Pow2Add(20, 3);
    Pow2Add(23, 2);
    Pow2Add(25, 1);
    Pow2Add(26, 3);
    Pow2Add(29, 1);
    Pow2Add(30, 1);
    Pow2Add(31, 1);
  }

  lemma {:induction false} BsrBounds(i: nat)
    requires i > 0
    ensures Bsr(i) >= 0 && Pow2(Bsr(i)) <= i < Pow2(Bsr(i) + 1)
  {
    if i > 1 {
      BsrBounds(i / 2);
    }
  }

  lemma BsrBelow(i: nat, n: nat)
    ensures Bsr(i) < n <==> i < Pow2(n)
  {
    if i > 0 {
      BsrBounds(i);
      if Bsr(i) < n { Pow2Monotone(Bsr(i) + 1, n); } else { Pow2Monotone(n, Bsr(i)); }
    }
  }

  // ---- What the new length is worth ----------------------------------------------------------

  /** Below 2^31 the new length is the least power of two above the index; from there on the shift
      wraps and it is 1. */
  lemma NewSizeFits(i: nat, n: nat)
    requires i < WORD
    ensures i < NewSize(i) <==> i < 0x8000_0000
    ensures i < 0x8000_0000 && i < Pow2(n) ==> NewSize(i) <= Pow2(n)
    ensures i >= 0x8000_0000 ==> NewSize(i) == 1
  {
    ShiftCount(i);
    hide Bsr;
    if i < 0x8000_0000 {
      if i > 0 { BsrBounds(i); }
      BsrBelow(i, n);
      if i < Pow2(n) { Pow2Monotone(Bsr(i) + 1, n); }
    }
  }

  lemma ShiftCount(i: nat)
    requires i < WORD
    ensures (Bsr(i) + 1) % 32 == if i < 0x8000_0000 then Bsr(i) + 1 else 0
  {
    Pow2Values();
    BsrBelow(i, 31);
    BsrBelow(i, 32);
    hide Bsr, Pow2;
  }

  /** The product of 32 bits holds the index exactly below 2^29. */
  lemma BytesHoldIndex(i: nat)
    requires i < WORD
    ensures BytesFor(i) >= ENTRY_BYTES * (i + 1) <==> i < 0x2000_0000
    ensures i < 0x2000_0000 ==> BytesFor(i) == ENTRY_BYTES * NewSize(i)
    ensures 0x2000_0000 <= i < 0x8000_0000 ==> BytesFor(i) == 0
  {
    Pow2Values();
    NewSizeFits(i, 29);
    NewSizeFits(i, 30);
    NewSizeFits(i, 31);
    if 0x2000_0000 <= i < 0x8000_0000 {
      assert NewSize(i) == 0x4000_0000 || NewSize(i) == 0x8000_0000 by { LengthPast(i); }
    }
  }

  lemma LengthPast(i: nat)
    requires 0x2000_0000 <= i < 0x8000_0000
    ensures NewSize(i) == 0x4000_0000 || NewSize(i) == 0x8000_0000
  {
    Pow2Values();
    BsrBelow(i, 29);
    BsrBelow(i, 30);
    BsrBelow(i, 31);
  }

  /** The grown array has memory for the index exactly below 2^25; there it has memory for all its
      entries, and above for none, or from 2^31 on for one. */
  lemma RoomExactly(i: nat)
    requires i < WORD
    ensures i < Room(i) <==> i < INDEX_LIMIT
    ensures i < INDEX_LIMIT ==> Room(i) == NewSize(i) <= INDEX_LIMIT
    ensures i >= INDEX_LIMIT ==> Room(i) == if i < 0x8000_0000 then 0 else 1
  {
    Pow2Values();
    NewSizeFits(i, 25);
    BytesHoldIndex(i);
    if INDEX_LIMIT <= i < 0x2000_0000 {
      assert NewSize(i) >= 0x400_0000 by { LengthFrom(i); }
    }
  }

  lemma LengthFrom(i: nat)
    requires INDEX_LIMIT <= i < 0x2000_0000
    ensures NewSize(i) >= 0x400_0000
  {
    Pow2Values();
    BsrBelow(i, 25);
    BsrBelow(i, 29);
    Pow2Monotone(26, Bsr(i) + 1);
  }

  function PagesAsked(bytes: nat): nat {
    HeapLayout.PagesFor(bytes + HeapLayout.ALIGNMENT + HeapLayout.ALIGN_INFO)
  }

  /** The heap meets requests of up to 65535 pages, which is what the page source can be asked for. */
  lemma PageCountFits(bytes: nat)
    ensures PagesAsked(bytes) <= KernelHeap.MAX_PAGES <==> bytes <= KernelHeap.MAX_REQUEST
  {
  }

  /** Of the request for the first array beyond the limit its 16 bits leave a single page. */
  lemma RequestCut()
    ensures BytesFor(INDEX_LIMIT) == 0x1000_0000
    ensures PagesAsked(BytesFor(INDEX_LIMIT)) % (KernelHeap.MAX_PAGES + 1) == 1
  {
    FirstBeyond();
    hide BytesFor;
  }

  lemma FirstBeyond()
    ensures BytesFor(INDEX_LIMIT) == 0x1000_0000
  {
    hide Pow2, Bsr;
    FirstBeyondBits();
    assert NewSize(INDEX_LIMIT) == 0x400_0000;
  }

  lemma FirstBeyondBits()
    ensures Bsr(INDEX_LIMIT) == 25 && Pow2(26) == 0x400_0000
  {
    hide Pow2, Bsr;
    Pow2Values();
    BsrBelow(INDEX_LIMIT, 25);
    BsrBelow(INDEX_LIMIT, 26);
  }

  // ---- Reading and storing -------------------------------------------------------------------

  function Get(view: seq<nat>, i: nat): nat {
    if i < |view| then view[i] else 0
  }

  function Zeros(n: nat): (s: seq<nat>)
    ensures |s| == n
  {
    seq(n, _ => 0)
  }

  /** The first n entries, filled up with null. */
  function Cut(view: seq<nat>, n: nat): (s: seq<nat>)
    ensures |s| == n
  {
    if n <= |view| then view[..n] else view + Zeros(n - |view|)
  }

  predicate Grows(view: seq<nat>, i: nat, value: nat) {
    value != 0 && i >= |view|
  }

  /** The entries with memory of their own after array_set. */
  function Set(view: seq<nat>, i: nat, value: nat): seq<nat> {
    var grown := if Grows(view, i, value) then Cut(view, Room(i)) else view;
    if i < |grown| then grown[i := value] else grown
  }

  /** When a store works: null never makes the array grow, and an index inside it or below the limit
      gets its place. */
  predicate Stores(size: nat, i: nat, value: nat) {
    value == 0 || i < size || i < INDEX_LIMIT
  }

  /** A store is seen at its index exactly where Stores says; then, however the array grew, it is
      seen nowhere else. */
  lemma GetAfterSet(view: seq<nat>, i: nat, value: nat, j: nat)
    requires i < WORD && |view| <= INDEX_LIMIT
    ensures Get(Set(view, i, value), i) == value <==> Stores(|view|, i, value)
    ensures Stores(|view|, i, value) ==>
              && Get(Set(view, i, value), j) == (if j == i then value else Get(view, j))
              && |view| <= |Set(view, i, value)| <= INDEX_LIMIT
    ensures value == 0 ==> |Set(view, i, value)| == |view|
  {
    RoomExactly(i);
    if Grows(view, i, value) && i < INDEX_LIMIT { assert |view| <= i < Room(i); }
  }

  /** For instance index -1: the array is cut to one entry and nothing is stored. */
  lemma StoreAtMinusOne(view: seq<nat>, value: nat)
    requires value != 0 && |view| <= INDEX_LIMIT
    ensures NewSize(0xFFFF_FFFF) == 1 && |Set(view, 0xFFFF_FFFF, value)| == 1
    ensures Get(Set(view, 0xFFFF_FFFF, value), 0xFFFF_FFFF) == 0
  {
    NewSizeFits(0xFFFF_FFFF, 0);
  }

  class PointerArray {
    var size: nat            // what the code takes for the length
    var values: array<nat>   // the entries with memory of their own

    function View(): seq<nat>
      reads this, values
    {
      values[..]
    }

    predicate Valid()
      reads this, values
    {
      size == values.Length <= INDEX_LIMIT
    }

    constructor ()
      ensures Valid() && View() == [] && fresh(values)
    {
      size, values := 0, new nat[0];
    }

    method ArrayGet(index: nat) returns (value: nat)
      requires Valid()
      ensures value == Get(View(), index)
    {
      if index >= size {
        return 0;
      }
      return values[index];
    }

    /** array_set.  `overrun` tells that it writes outside the memory of the array: old entries that
        have no room, or the new one. */
    method ArraySet(index: nat, value: nat) returns (overrun: bool)
      requires Valid() && index < WORD
      modifies this, values
      ensures values == old(values) || fresh(values)
      ensures View() == Set(old(View()), index, value)
      ensures Stores(old(size), index, value) ==> Valid() && !overrun
      ensures !Stores(old(size), index, value) ==> size == NewSize(index)
      ensures overrun <==> !Stores(old(size), index, value) && (index < 0x8000_0000 || old(size) > 1)
    {
      RoomExactly(index);
      NewSizeFits(index, 0);
      overrun := false;
      if value != 0 && index >= size {
        var newsize := NewSize(index);
        var room := Room(index);
        var bigger := new nat[room](_ => 0);
        overrun := room < size;
        var kept := if room < size then room else size;
        for i := 0 to kept
          modifies bigger
          invariant bigger[..i] == values[..i]
          invariant forall j :: i <= j < room ==> bigger[j] == 0
        {
          bigger[i] := values[i];
        }
        size, values := newsize, bigger;
        assert View() == Cut(old(View()), room);
      }
      if index < size {
        if index < values.Length {
          values[index] := value;
        } else {
          overrun := true;
        }
      }
    }
  }
}
