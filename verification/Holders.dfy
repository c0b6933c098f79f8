/** Reference counting by holders.

    Several tables of the kernel (physical frames, open files, file tables) keep a number per
    resource that is meant to be the number of places naming it.  Here the places are the keys of
    a map `held` and the number is the size of the set of keys mapped to the resource. */
module Holders {

  ghost function Of<H, R>(held: map<H, R>, r: R): set<H> {
    set h | h in held && held[h] == r
  }

  ghost function Count<H, R>(held: map<H, R>, r: R): nat {
    |Of(held, r)|
  }

  /** A new holder raises the count of what it holds by one and no other count. */
  lemma CountAdd<H, R>(held: map<H, R>, h: H, r: R, q: R)
    requires h !in held
    ensures Count(held[h := r], q) == Count(held, q) + if q == r then 1 else 0
  {
    if q == r {
      assert Of(held[h := r], q) == Of(held, q) + {h};
    } else {
      assert Of(held[h := r], q) == Of(held, q);
    }
  }

  /** A holder that goes lowers the count of what it held by one and no other count. */
  lemma CountRemove<H, R>(held: map<H, R>, h: H, q: R)
    requires h in held
    ensures Count(held - {h}, q) == Count(held, q) - if q == held[h] then 1 else 0
  {
    if q == held[h] {
      assert Of(held, q) == Of(held - {h}, q) + {h};
    } else {
      assert Of(held, q) == Of(held - {h}, q);
    }
  }

  lemma CountPositive<H, R>(held: map<H, R>, h: H)
    requires h in held
    ensures Count(held, held[h]) > 0
  {
    assert h in Of(held, held[h]);
  }

  lemma CountZero<H, R>(held: map<H, R>, r: R)
    ensures Count(held, r) == 0 <==> forall h :: h in held ==> held[h] != r
  {
    if Count(held, r) == 0 {
      assert Of(held, r) == {};
      forall h | h in held ensures held[h] != r {
        assert h !in Of(held, r);
      }
    } else {
      var h :| h in Of(held, r);
    }
  }

  /** A count of one means a single holder. */
  lemma CountOne<H, R>(held: map<H, R>, h: H, g: H)
    requires h in held && g in held && held[g] == held[h]
    requires Count(held, held[h]) == 1
    ensures g == h
  {
    var s := Of(held, held[h]);
    assert h in s && g in s;
    assert |s - {h}| == 0;
    assert g !in s - {h};
  }
}
