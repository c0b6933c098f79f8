/** The doubly linked list with two sentinels (src/structure/list.c, src/structure/list.h).  Values
    are pointers; a null value marks a sentinel. */
module Lists {
  import opened Sequences

  const EINVAL: int := -22
  const ENOMEM: int := -12

  // ---- Sequences -----------------------------------------------------------------------------

  function Filter(s: seq<nat>, keep: nat -> bool): seq<nat> {
    if s == [] then []
    else Filter(s[..|s| - 1], keep) + if keep(s[|s| - 1]) then [s[|s| - 1]] else []
  }

  function Without(s: seq<nat>, drop: nat -> bool): seq<nat> {
    if s == [] then []
    else Without(s[..|s| - 1], drop) + if drop(s[|s| - 1]) then [] else [s[|s| - 1]]
  }

  lemma {:induction false} FilterSplits(s: seq<nat>, p: nat -> bool, x: nat)
    ensures x in Filter(s, p) <==> x in s && p(x)
    ensures x in Without(s, p) <==> x in s && !p(x)
    ensures |Filter(s, p)| + |Without(s, p)| == |s|
  {
    if s != [] {
      FilterSplits(s[..|s| - 1], p, x);
      assert s == s[..|s| - 1] + [s[|s| - 1]];
    }
  }

  /** Removal by equality. */
  lemma {:induction false} WithoutIsRemoved(s: seq<nat>, drop: nat -> bool, value: nat)
    requires forall x :: drop(x) <==> x == value
    ensures Without(s, drop) == Removed(s, value)
  {
    if s != [] {
      WithoutIsRemoved(s[..|s| - 1], drop, value);
      RemovedMore(s[..|s| - 1], s[|s| - 1], value);
      assert s == s[..|s| - 1] + [s[|s| - 1]];
    }
  }

  /** Both keep the order: of two lists in a row they give the two results in a row. */
  lemma {:induction false} FilterInOrder(a: seq<nat>, b: seq<nat>, cond: nat -> bool)
    ensures Filter(a + b, cond) == Filter(a, cond) + Filter(b, cond)
    ensures Without(a + b, cond) == Without(a, cond) + Without(b, cond)
  {
    if b == [] {
      assert a + b == a;
    } else {
      assert (a + b)[..|a + b| - 1] == a + b[..|b| - 1];
      FilterInOrder(a, b[..|b| - 1], cond);
    }
  }

  /** Where list_insert_ordered puts a value: behind all leading values that compare greater. */
  function Place(s: seq<nat>, value: nat, compare: (nat, nat) -> int): (k: nat)
    ensures k <= |s|
    ensures forall i :: 0 <= i < k ==> compare(s[i], value) > 0
    ensures k < |s| ==> compare(s[k], value) <= 0
  {
    if s == [] || compare(s[0], value) <= 0 then 0 else 1 + Place(s[1..], value, compare)
  }

  lemma InsertedIndex<T>(s: seq<T>, k: nat, x: T)
    requires k <= |s|
    ensures |InsertAt(s, k, x)| == |s| + 1
    ensures InsertAt(s, k, x)[k] == x
    ensures forall i :: 0 <= i < k ==> InsertAt(s, k, x)[i] == s[i]
    ensures forall i :: k < i <= |s| ==> InsertAt(s, k, x)[i] == s[i - 1]
  {
  }

  lemma RemovedIndex<T>(s: seq<T>, k: nat)
    requires k < |s|
    ensures |RemoveAt(s, k)| == |s| - 1
    ensures forall i :: 0 <= i < k ==> RemoveAt(s, k)[i] == s[i]
    ensures forall i :: k <= i < |s| - 1 ==> RemoveAt(s, k)[i] == s[i + 1]
  {
  }

  lemma PlaceUnique(s: seq<nat>, value: nat, compare: (nat, nat) -> int, k: nat)
    requires k <= |s| && (forall i :: 0 <= i < k ==> compare(s[i], value) > 0)
    requires k < |s| ==> compare(s[k], value) <= 0
    ensures k == Place(s, value, compare)
  {
  }

  /** No value is greater than one before it. */
  ghost predicate NonIncreasing(s: seq<nat>, compare: (nat, nat) -> int) {
    forall i, j :: 0 <= i < j < |s| ==> compare(s[i], s[j]) >= 0
  }

  /** compare orders the values in `among`. */
  ghost predicate Orders(among: set<nat>, compare: (nat, nat) -> int) {
    && (forall x, y :: x in among && y in among ==> (compare(x, y) >= 0 <==> compare(y, x) <= 0))
    && (forall x, y, z :: x in among && y in among && z in among && compare(x, y) >= 0 && compare(y, z) >= 0 ==>
          compare(x, z) >= 0)
  }

  /** Where the new value goes, everything before is no less and everything behind no greater. */
  lemma PlaceSeparates(s: seq<nat>, value: nat, compare: (nat, nat) -> int, among: set<nat>, i: nat)
    requires Orders(among, compare) && value in among && (forall x :: x in s ==> x in among)
    requires NonIncreasing(s, compare) && i < |s|
    ensures if i < Place(s, value, compare) then compare(s[i], value) >= 0 else compare(value, s[i]) >= 0
  {
  }

  /** Ordered insertion into an ordered list keeps the order. */
  lemma OrderedInsertKeeps(s: seq<nat>, value: nat, compare: (nat, nat) -> int, among: set<nat>)
    requires Orders(among, compare) && value in among && (forall x :: x in s ==> x in among)
    requires NonIncreasing(s, compare)
    ensures NonIncreasing(InsertAt(s, Place(s, value, compare), value), compare)
  {
    hide Orders, InsertAt;
    var k := Place(s, value, compare);
    InsertedIndex(s, k, value);
    forall i: nat | i < |s| ensures if i < k then compare(s[i], value) >= 0 else compare(value, s[i]) >= 0 {
      PlaceSeparates(s, value, compare, among, i);
    }
  }

  // ---- The list ------------------------------------------------------------------------------

  class Node {
    var value: nat
    var prev: Node?
    var next: Node?

    constructor (value: nat)
      ensures this.value == value && prev == null && next == null
    {
      this.value, prev, next := value, null, null;
    }
  }

  /** Neighbours in a chain point at each other. */
  ghost predicate Joined(chain: seq<Node>, i: nat)
    requires i + 1 < |chain|
    reads chain
  {
    chain[i].next == chain[i + 1] && chain[i + 1].prev == chain[i]
  }

  ghost predicate Distinct(chain: seq<Node>) {
    forall i, j :: 0 <= i < j < |chain| ==> chain[i] != chain[j]
  }

  ghost predicate ValueRight(chain: seq<Node>, i: nat)
    requires i < |chain|
    reads chain
  {
    chain[i].value == 0 <==> i == 0 || i == |chain| - 1
  }

  class List {
    const first: Node
    const last: Node
    ghost var chain: seq<Node>    // the sentinels with the nodes between them

    /** Forward and backward links are inverse along the chain; only sentinels have a null value. */
    ghost predicate Valid()
      reads this, chain
    {
      && |chain| >= 2 && chain[0] == first && chain[|chain| - 1] == last && Distinct(chain)
      && (forall i: nat :: i + 1 < |chain| ==> Joined(chain, i))
      && (forall i: nat :: i < |chain| ==> ValueRight(chain, i))
    }

    ghost function Contents(): (s: seq<nat>)
      requires |chain| >= 2
      reads this, chain
      ensures |s| == |chain| - 2
    {
      seq(|chain| - 2, i requires 0 <= i < |chain| - 2 reads this, chain => chain[i + 1].value)
    }

    constructor ()
      ensures Valid() && Contents() == [] && fresh(chain)
    {
      first := new Node(0);
      last := new Node(0);
      new;
      first.next := last;
      last.prev := first;
      chain := [first, last];
    }

    /** The link writes of the insertions: a new node behind node k of the chain. */
    method LinkBehind(ghost k: nat, prev: Node, value: nat)
      requires Valid() && k + 1 < |chain| && prev == chain[k] && value != 0
      modifies this`chain, chain[k], chain[k + 1]
      ensures Valid() && fresh(set n | n in chain && n !in old(chain))
      ensures Contents() == InsertAt(old(Contents()), k, value)
    {
      hide InsertAt;
      assert Joined(chain, k);
      var node := new Node(value);
      node.prev := prev;
      node.next := prev.next;
      node.prev.next := node;
      node.next.prev := node;
      InsertedIndex(chain, k + 1, node);
      InsertedIndex(old(Contents()), k, value);
      chain := InsertAt(chain, k + 1, node);
      forall i: nat | i + 1 < |chain| ensures Joined(chain, i) {
        if i < k { assert old(Joined(chain, i)); } else if i > k + 1 { assert old(Joined(chain, i - 1)); }
      }
      forall i: nat | i < |chain| ensures ValueRight(chain, i) {
        if i <= k { assert old(ValueRight(chain, i)); } else if i > k + 1 { assert old(ValueRight(chain, i - 1)); }
      }
    }

    /** The link writes of the removals. */
    method Unlink(ghost k: nat, node: Node)
      requires Valid() && k + 2 < |chain| && node == chain[k + 1]
      modifies this`chain, chain[k], chain[k + 2]
      ensures Valid() && chain == RemoveAt(old(chain), k + 1)
      ensures Contents() == RemoveAt(old(Contents()), k)
    {
      hide RemoveAt;
      assert Joined(chain, k) && Joined(chain, k + 1);
      node.next.prev := node.prev;
      node.prev.next := node.next;
      RemovedIndex(chain, k + 1);
      RemovedIndex(old(Contents()), k);
      chain := RemoveAt(chain, k + 1);
      forall i: nat | i + 1 < |chain| ensures Joined(chain, i) {
        if i < k { assert old(Joined(chain, i)); } else if i > k { assert old(Joined(chain, i + 1)); }
      }
      forall i: nat | i < |chain| ensures ValueRight(chain, i) {
        if i <= k { assert old(ValueRight(chain, i)); } else { assert old(ValueRight(chain, i + 1)); }
      }
    }

    /** list_insert_front; `memory` tells whether a node could be allocated. */
    method InsertFront(value: nat, memory: bool) returns (res: int)
      requires Valid()
      modifies this, chain
      ensures Valid() && fresh(set n | n in chain && n !in old(chain))
      ensures res == InsertResult(value, memory)
      ensures Contents() == if res == 0 then [value] + old(Contents()) else old(Contents())
    {
      if value == 0 { return EINVAL; }
      if !memory { return ENOMEM; }
      LinkBehind(0, first, value);
      return 0;
    }

    method InsertBack(value: nat, memory: bool) returns (res: int)
      requires Valid()
      modifies this, chain
      ensures Valid() && fresh(set n | n in chain && n !in old(chain))
      ensures res == InsertResult(value, memory)
      ensures Contents() == if res == 0 then old(Contents()) + [value] else old(Contents())
    {
      if value == 0 { return EINVAL; }
      if !memory { return ENOMEM; }
      assert Joined(chain, |chain| - 2);
      LinkBehind(|chain| - 2, last.prev, value);
      return 0;
    }

    method InsertOrdered(value: nat, compare: (nat, nat) -> int, memory: bool) returns (res: int)
      requires Valid()
      modifies this, chain
      ensures Valid() && fresh(set n | n in chain && n !in old(chain))
      ensures res == InsertResult(value, memory)
      ensures Contents() == if res == 0
                            then InsertAt(old(Contents()), Place(old(Contents()), value, compare), value)
                            else old(Contents())
    {
      if value == 0 { return EINVAL; }
      if !memory { return ENOMEM; }
      var prev := first;
      ghost var k: nat := 0;
      assert Joined(chain, 0) && ValueRight(chain, 1);
      while prev.next.value != 0 && compare(prev.next.value, value) > 0
        invariant k + 1 < |chain| && prev == chain[k] && prev.next == chain[k + 1]
        invariant prev.next.value == 0 <==> k == |chain| - 2
        invariant forall i :: 0 <= i < k ==> compare(Contents()[i], value) > 0
        decreases |chain| - k
      {
        assert Joined(chain, k) && Joined(chain, k + 1) && ValueRight(chain, k + 2);
        prev := prev.next;
        k := k + 1;
      }
      PlaceUnique(Contents(), value, compare, k);
      LinkBehind(k, prev, value);
      return 0;
    }

    method PeekFront() returns (value: nat)
      requires Valid()
      ensures value == if Contents() == [] then 0 else Contents()[0]
    {
      assert Joined(chain, 0);
      if first.next == last { return 0; }
      return first.next.value;
    }

    method PeekBack() returns (value: nat)
      requires Valid()
      ensures value == if Contents() == [] then 0 else Contents()[|Contents()| - 1]
    {
      assert Joined(chain, 0) && Joined(chain, |chain| - 2);
      if first.next == last { return 0; }
      return last.prev.value;
    }

    method PopFront() returns (value: nat)
      requires Valid()
      modifies this, chain
      ensures Valid() && (forall n :: n in chain ==> n in old(chain))
      ensures if old(Contents()) == [] then value == 0 && Contents() == []
              else value == old(Contents())[0] && Contents() == old(Contents())[1..]
    {
      assert Joined(chain, 0);
      if first.next == last { return 0; }
      var node := first.next;
      value := node.value;
      Unlink(0, node);
    }

    method PopBack() returns (value: nat)
      requires Valid()
      modifies this, chain
      ensures Valid() && (forall n :: n in chain ==> n in old(chain))
      ensures if old(Contents()) == [] then value == 0 && Contents() == []
              else value == old(Contents())[|old(Contents())| - 1]
                   && Contents() == old(Contents())[..|old(Contents())| - 1]
    {
      assert Joined(chain, 0) && Joined(chain, |chain| - 2);
      if first.next == last { return 0; }
      var node := last.prev;
      value := node.value;
      Unlink(|chain| - 3, node);
    }

    method Contains(value: nat) returns (found: bool)
      requires Valid()
      ensures found <==> value in Contents()
    {
      assert Joined(chain, 0) && ValueRight(chain, 1);
      var node := first.next;
      ghost var k: nat := 1;
      while node.value != 0
        invariant 1 <= k < |chain| && node == chain[k]
        invariant value !in Contents()[..k - 1]
        decreases |chain| - k
      {
        assert ValueRight(chain, k);
        if node.value == value {
          assert Contents()[k - 1] == value;
          return true;
        }
        assert Contents()[..k] == Contents()[..k - 1] + [node.value];
        assert Joined(chain, k);
        node := node.next;
        k := k + 1;
      }
      assert ValueRight(chain, k);
      assert Contents()[..k - 1] == Contents();
      return false;
    }

    /** list_remove_on_cond: all matching nodes go, whose values are returned in order. */
    method RemoveOnCond(cond: nat -> bool) returns (removed: seq<nat>)
      requires Valid()
      modifies this, chain
      ensures Valid() && (forall n :: n in chain ==> n in old(chain))
      ensures Contents() == Without(old(Contents()), cond) && removed == Filter(old(Contents()), cond)
    {
      hide Without, Filter, RemoveAt, Distinct;
      removed := [];
      ghost var all := Contents();
      NoneYet(all, cond);
      assert Joined(chain, 0);
      var node := first.next;
      ghost var done, kept: nat := 0, 0;
      while node.value != 0
        invariant Valid() && (forall n :: n in chain ==> n in old(chain))
        invariant done <= |all| && kept + 1 < |chain| && node == chain[kept + 1]
        invariant |Contents()| - kept == |all| - done && Contents()[kept..] == all[done..]
        invariant Contents()[..kept] == Without(all[..done], cond) && removed == Filter(all[..done], cond)
        decreases |all| - done
      {
        assert ValueRight(chain, kept + 1) && Joined(chain, kept + 1);
        var next := node.next;
        NextOf(all, Contents(), done, kept, cond);
        RemovedIndex(chain, kept + 1);
        RemovedIndex(Contents(), kept);
        assert chain[kept] in old(chain) && chain[kept + 2] in old(chain);
        assert node.value == Contents()[kept];
        if cond(node.value) {
          removed := removed + [node.value];
          Unlink(kept, node);
        } else {
          kept := kept + 1;
        }
        done := done + 1;
        node := next;
      }
      assert ValueRight(chain, kept + 1);
      assert all[..done] == all && Contents()[..kept] == Contents();
    }

    /** list_remove. */
    method Remove(value: nat)
      requires Valid()
      modifies this, chain
      ensures Valid() && (forall n :: n in chain ==> n in old(chain))
      ensures Contents() == Removed(old(Contents()), value)
    {
      var same := (entry: nat) => entry == value;
      var removed := RemoveOnCond(same);
      WithoutIsRemoved(old(Contents()), same, value);
    }
  }

  function InsertResult(value: nat, memory: bool): int {
    if value == 0 then EINVAL else if memory then 0 else ENOMEM
  }

  /** Null is refused, and a missing node reported. */
  lemma InsertFails(value: nat, memory: bool)
    ensures InsertResult(value, memory) == 0 <==> value != 0 && memory
    ensures InsertResult(0, memory) == -22 && (value != 0 ==> InsertResult(value, false) == -12)
  {
  }

  lemma NoneYet(all: seq<nat>, cond: nat -> bool)
    ensures Without(all[..0], cond) == [] && Filter(all[..0], cond) == []
  {
  }

  /** One value further in the removal loop. */
  lemma NextOf(all: seq<nat>, s: seq<nat>, done: nat, kept: nat, cond: nat -> bool)
    requires done < |all| && kept < |s| && s[kept..] == all[done..] && s[..kept] == Without(all[..done], cond)
    ensures s[kept] == all[done]
    ensures Filter(all[..done + 1], cond) == Filter(all[..done], cond) + if cond(s[kept]) then [s[kept]] else []
    ensures if cond(s[kept]) then RemoveAt(s, kept)[..kept] == Without(all[..done + 1], cond)
                                  && RemoveAt(s, kept)[kept..] == all[done + 1..]
            else s[..kept + 1] == Without(all[..done + 1], cond) && s[kept + 1..] == all[done + 1..]
  {
    assert s[kept] == s[kept..][0] == all[done..][0] == all[done];
    assert all[..done + 1][..done] == all[..done];
    assert s[kept + 1..] == s[kept..][1..] && all[done + 1..] == all[done..][1..];
    assert s[..kept + 1] == s[..kept] + [s[kept]];
  }
}
