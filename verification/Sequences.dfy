/** Sequences with an element put in or taken out. */
module Sequences {

  function InsertAt<T>(s: seq<T>, i: nat, x: T): seq<T>
    requires i <= |s|
  {
    s[..i] + [x] + s[i..]
  }

  function RemoveAt<T>(s: seq<T>, i: nat): seq<T>
    requires i < |s|
  {
    s[..i] + s[i + 1..]
  }

  /** All occurrences of x gone, as list_remove leaves a list. */
  function Removed<T(==)>(s: seq<T>, x: T): seq<T> {
    if s == [] then [] else if s[0] == x then Removed(s[1..], x) else [s[0]] + Removed(s[1..], x)
  }

  lemma {:induction false} RemovedHas<T>(s: seq<T>, x: T)
    ensures forall y :: y in Removed(s, x) <==> y in s && y != x
  {
    if s != [] {
      RemovedHas(s[1..], x);
      assert s == [s[0]] + s[1..];
    }
  }

  lemma {:induction false} NotThere<T>(s: seq<T>, x: T)
    requires x !in s
    ensures Removed(s, x) == s
  {
    if s != [] {
      NotThere(s[1..], x);
    }
  }

  lemma {:induction false} RemovedDistinct<T>(s: seq<T>, x: T)
    requires forall i, j :: 0 <= i < j < |s| ==> s[i] != s[j]
    ensures forall i, j :: 0 <= i < j < |Removed(s, x)| ==> Removed(s, x)[i] != Removed(s, x)[j]
  {
    if s != [] {
      RemovedDistinct(s[1..], x);
      RemovedHas(s[1..], x);
      assert s[0] !in s[1..] && s[0] !in Removed(s[1..], x);
    }
  }

  lemma {:induction false} RemovedMore<T>(s: seq<T>, y: T, x: T)
    ensures Removed(s + [y], x) == Removed(s, x) + if y == x then [] else [y]
  {
    if s == [] {
      assert [] + [y] == [y];
    } else {
      RemovedMore(s[1..], y, x);
      assert (s + [y])[1..] == s[1..] + [y];
    }
  }
}
