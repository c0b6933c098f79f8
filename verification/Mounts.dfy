/** The mount table and the walk between paths and mounts (src/vfs/mount.c, src/vfs/path.c). */
module Mounts {
  import opened Sequences
  import opened Paths
  import opened PathObjects

  /** Every mount ever made keeps its path; `live` are those in the table, oldest first. */
  datatype Table = Table(paths: map<MountId, Path>, live: seq<MountId>, next: MountId)

  /** Components as the parser makes them: no slash and no terminator inside. */
  predicate Nameable(p: Path) {
    NoSlash(p.comps) && Strings(p)
  }

  /** A mount hangs under the root or under an earlier mount. */
  ghost predicate MountPathOk(t: Table, id: MountId, p: Path) {
    && Normal(p) && Rooted(p) && Nameable(p)
    && (p.mnt != 0 ==> !p.absolute && p.mnt in t.paths && p.mnt < id)
  }

  ghost predicate TableOk(t: Table) {
    && 0 < t.next
    && (forall id :: id in t.paths ==> 0 < id < t.next && MountPathOk(t, id, t.paths[id]))
    && (forall i :: 0 <= i < |t.live| ==> t.live[i] in t.paths)
    && (forall i, j :: 0 <= i < j < |t.live| ==> t.live[i] != t.live[j])
  }

  /** A path that the table can resolve. */
  ghost predicate PathOk(t: Table, p: Path) {
    Normal(p) && Nameable(p) && (p.mnt != 0 ==> !p.absolute && p.mnt in t.paths)
  }

  // ---- The best match ------------------------------------------------------------------------

  predicate Matches(t: Table, p: Path, i: nat)
    requires i < |t.live| && t.live[i] in t.paths
  {
    Prefix(t.paths[t.live[i]], p)
  }

  /** Mount i matches with the most components, as the latest of those that do. */
  ghost predicate Longest(t: Table, p: Path, i: nat)
    requires TableOk(t)
  {
    && i < |t.live| && Matches(t, p, i)
    && forall j: nat :: j < |t.live| && Matches(t, p, j) ==>
         var m, b := |t.paths[t.live[j]].comps|, |t.paths[t.live[i]].comps|; m < b || (m == b && j <= i)
  }

  /** The choice of path_checkmnt over the first n entries. */
  function BestOf(t: Table, p: Path, n: nat): (best: MountId)
    requires n <= |t.live| && forall i :: 0 <= i < |t.live| ==> t.live[i] in t.paths && t.live[i] != 0
    ensures best != 0 ==> best in t.live[..n] && best in t.paths && Prefix(t.paths[best], p)
  {
    if n == 0 then 0 else
    var before := BestOf(t, p, n - 1);
    var entry := t.live[n - 1];
    var size := if before == 0 then 0 else |t.paths[before].comps|;
    if Subsumes(t.paths[entry], p) >= size then entry else before
  }

  lemma {:induction false} BestSoFar(t: Table, p: Path, n: nat, j: nat)
    requires TableOk(t) && j < n <= |t.live| && Matches(t, p, j)
    ensures var best := BestOf(t, p, n);
            best != 0 && (|t.paths[t.live[j]].comps| < |t.paths[best].comps|
            || (|t.paths[t.live[j]].comps| == |t.paths[best].comps|
                && exists i: nat :: j <= i < n && best == t.live[i]))
  {
    if j < n - 1 { BestSoFar(t, p, n - 1, j); }
  }

  /** path_checkmnt's scan picks the longest matching mount, the latest on ties, and none when none
      matches. */
  lemma BestIsLongest(t: Table, p: Path) returns (i: nat)
    requires TableOk(t)
    ensures var best := BestOf(t, p, |t.live|);
            if best == 0 then forall j: nat :: j < |t.live| ==> !Matches(t, p, j)
            else Longest(t, p, i) && best == t.live[i]
  {
    i := 0;
    var n := |t.live|;
    var best := BestOf(t, p, n);
    forall j: nat | j < n && Matches(t, p, j)
      ensures best != 0 && |t.paths[t.live[j]].comps| <= |t.paths[best].comps|
    {
      BestSoFar(t, p, n, j);
    }
    if best != 0 {
      i :| i < n && t.live[i] == best;
      forall j: nat | j < n && Matches(t, p, j)
        ensures |t.paths[t.live[j]].comps| < |t.paths[best].comps|
             || (|t.paths[t.live[j]].comps| == |t.paths[best].comps| && j <= i)
      {
        BestSoFar(t, p, n, j);
      }
    }
  }

  // ---- Into the mounts and back --------------------------------------------------------------

  function Hop(t: Table, p: Path, best: MountId): Path
    requires best in t.paths && Prefix(t.paths[best], p)
  {
    Path(false, best, p.comps[|t.paths[best].comps|..])
  }

  ghost function CheckMnt(t: Table, p: Path): Path
    requires TableOk(t)
    decreases t.next - p.mnt
  {
    var best := BestOf(t, p, |t.live|);
    if best == 0 then p else
    assert MountPathOk(t, best, t.paths[best]);
    CheckMnt(t, Hop(t, p, best))
  }

  ghost function Resolve(t: Table, p: Path): Path
    requires TableOk(t) && PathOk(t, p)
    decreases p.mnt
  {
    if p.mnt == 0 then p else
    Outward(t, p);
    Resolve(t, OneUp(t, p))
  }

  /** The path seen from outside its mount. */
  function OneUp(t: Table, p: Path): Path
    requires p.mnt in t.paths
  {
    AddAll(Path(t.paths[p.mnt].absolute, t.paths[p.mnt].mnt, []), t.paths[p.mnt].comps + p.comps)
  }

  lemma Outward(t: Table, p: Path)
    requires TableOk(t) && PathOk(t, p) && p.mnt != 0
    ensures PathOk(t, OneUp(t, p)) && OneUp(t, p).mnt < p.mnt && Rooted(OneUp(t, p))
    ensures Join(t.paths[p.mnt], p.(mnt := 0)) == Ok(OneUp(t, p))
  {
    var m := t.paths[p.mnt];
    assert MountPathOk(t, p.mnt, m);
    AddAllNormal(Path(m.absolute, m.mnt, []), m.comps + p.comps);
    OneUpNameable(m, p);
    hide Normal, Nameable, TableOk;
  }

  lemma OneUpNameable(m: Path, p: Path)
    requires Nameable(m) && Nameable(p)
    ensures Nameable(AddAll(Path(m.absolute, m.mnt, []), m.comps + p.comps))
  {
    AddAllFrom(Path(m.absolute, m.mnt, []), m.comps + p.comps);
    var q := AddAll(Path(m.absolute, m.mnt, []), m.comps + p.comps);
    forall c | c in q.comps ensures '/' !in c && CString(c) {
      assert c in m.comps || c in p.comps;
    }
  }

  lemma DropKeeps(p: Path, k: nat, best: MountId)
    requires Normal(p) && Rooted(p) && Nameable(p) && k <= |p.comps| && best != 0
    ensures Normal(Path(false, best, p.comps[k..])) && Nameable(Path(false, best, p.comps[k..]))
  {
  }

  lemma HopOk(t: Table, p: Path, best: MountId)
    requires TableOk(t) && PathOk(t, p) && best in t.paths && Prefix(t.paths[best], p)
    ensures PathOk(t, Hop(t, p, best)) && OneUp(t, Hop(t, p, best)) == p && p.mnt < best
  {
    var m := t.paths[best];
    assert MountPathOk(t, best, m);
    DropKeeps(p, |m.comps|, best);
    CloneIdentity(p);
    hide Normal, Nameable, AddAll, TableOk;
    assert m.comps + p.comps[|m.comps|..] == p.comps;
  }

  /** path_checkmnt ends where no mount matches, and does not change what the path resolves to. */
  lemma {:induction false} CheckKeepsResolved(t: Table, p: Path)
    requires TableOk(t) && PathOk(t, p)
    ensures PathOk(t, CheckMnt(t, p)) && Resolve(t, CheckMnt(t, p)) == Resolve(t, p)
    ensures forall j: nat :: j < |t.live| ==> !Matches(t, CheckMnt(t, p), j)
    decreases t.next - p.mnt
  {
    var best := BestOf(t, p, |t.live|);
    var i := BestIsLongest(t, p);
    if best != 0 {
      HopOk(t, p, best);
      CheckKeepsResolved(t, Hop(t, p, best));
    }
  }

  /** The path continues the path of mount i. */
  ghost predicate Below(t: Table, i: nat, more: seq<string>, p: Path)
    requires i < |t.live| && t.live[i] in t.paths
  {
    p == t.paths[t.live[i]].(comps := t.paths[t.live[i]].comps + more)
  }

  lemma BelowMatches(t: Table, i: nat, more: seq<string>, p: Path)
    requires i < |t.live| && t.live[i] in t.paths && Below(t, i, more, p)
    ensures Matches(t, p, i)
  {
    SubsumesExtension(t.paths[t.live[i]], more);
  }

  /** A path below a mount enters one: below the longest such mount path, on ties the newest, path_checkmnt
      goes on from the root of that mount with the rest of the components. */
  lemma BelowEnters(t: Table, i: nat, more: seq<string>, p: Path)
    requires TableOk(t) && i < |t.live| && Below(t, i, more, p)
    requires forall j: nat, rest :: j < |t.live| && Below(t, j, rest, p) ==>
               |rest| > |more| || (|rest| == |more| && j <= i)
    ensures CheckMnt(t, p) == CheckMnt(t, Path(false, t.live[i], more)) && CheckMnt(t, p) != p
  {
    BelowMatches(t, i, more, p);
    BestSoFar(t, p, |t.live|, i);
    var j := BestIsLongest(t, p);
    var q := t.paths[t.live[j]];
    var rest := p.comps[|q.comps|..];
    assert Below(t, j, rest, p);
    assert Hop(t, p, t.live[j]) == Path(false, t.live[i], more);
    EntersDeeper(t, Path(false, t.live[i], more));
    assert MountPathOk(t, t.live[i], t.paths[t.live[i]]);
  }

  lemma {:induction false} EntersDeeper(t: Table, p: Path)
    requires TableOk(t)
    ensures CheckMnt(t, p).mnt >= p.mnt
    decreases t.next - p.mnt
  {
    var best := BestOf(t, p, |t.live|);
    if best != 0 {
      assert MountPathOk(t, best, t.paths[best]);
      EntersDeeper(t, Hop(t, p, best));
    }
  }

  lemma NothingBelow(t: Table, p: Path)
    requires TableOk(t) && forall j: nat :: j < |t.live| ==> !Matches(t, p, j)
    ensures forall i: nat, more :: i < |t.live| ==> !Below(t, i, more, p)
  {
    forall i: nat, more | i < |t.live| ensures !Below(t, i, more, p) {
      if Below(t, i, more, p) { BelowMatches(t, i, more, p); }
    }
  }

  /** path_checkmnt changes a path exactly if it lies below some mount. */
  lemma ChecksExactly(t: Table, p: Path)
    requires TableOk(t)
    ensures CheckMnt(t, p) == p <==> forall i: nat, more :: i < |t.live| ==> !Below(t, i, more, p)
  {
    var j := BestIsLongest(t, p);
    var best := BestOf(t, p, |t.live|);
    if best == 0 {
      NothingBelow(t, p);
    } else {
      assert Below(t, j, p.comps[|t.paths[best].comps|..], p);
      assert MountPathOk(t, best, t.paths[best]);
      EntersDeeper(t, Hop(t, p, best));
    }
    hide Below, TableOk, BestOf;
  }

  /** And its result lies below none. */
  lemma ChecksCompletely(t: Table, p: Path)
    requires TableOk(t) && PathOk(t, p)
    ensures forall i: nat, more :: i < |t.live| ==> !Below(t, i, more, CheckMnt(t, p))
  {
    hide PathOk, CheckMnt, Below, Matches;
    CheckKeepsResolved(t, p);
    NothingBelow(t, CheckMnt(t, p));
  }

  lemma {:induction false} ResolvedIsUnmounted(t: Table, p: Path)
    requires TableOk(t) && PathOk(t, p)
    ensures Resolve(t, p).mnt == 0 && Normal(Resolve(t, p))
    ensures Nameable(Resolve(t, p)) && (Rooted(p) ==> Resolve(t, p).absolute)
    decreases p.mnt
  {
    if p.mnt != 0 {
      Outward(t, p);
      ResolvedIsUnmounted(t, OneUp(t, p));
    }
  }

  /** The text of the current directory names the same place again: printing a rooted path, parsing
      the text and entering the mounts resolves to the same path. */
  lemma TextNamesSamePlace(t: Table, p: Path)
    requires TableOk(t) && PathOk(t, p) && Rooted(p)
    ensures Parse(Text(Resolve(t, p))) == Ok(Resolve(t, p))
    ensures PathOk(t, Resolve(t, p)) && PathOk(t, CheckMnt(t, Resolve(t, p)))
    ensures Resolve(t, CheckMnt(t, Resolve(t, p))) == Resolve(t, p)
  {
    hide TableOk, Normal, Nameable, Parse, Text, CheckMnt, BestOf;
    ResolvedIsUnmounted(t, p);
    NoSlashOf(Resolve(t, p));
    TextRoundTrip(Resolve(t, p));
    CheckKeepsResolved(t, Resolve(t, p));
  }

  lemma NoSlashOf(p: Path)
    requires Nameable(p)
    ensures NoSlash(p.comps)
  {
  }

  // ---- Mounting and unmounting ---------------------------------------------------------------

  function Mounted(t: Table, p: Path): Table {
    Table(t.paths[t.next := p], t.live + [t.next], t.next + 1)
  }

  function Unmounted(t: Table, id: MountId): Table {
    t.(live := Removed(t.live, id))
  }

  lemma MountingKeeps(t: Table, p: Path)
    requires TableOk(t) && MountPathOk(t, t.next, p)
    ensures TableOk(Mounted(t, p))
  {
  }

  lemma UnmountingKeeps(t: Table, id: MountId)
    requires TableOk(t)
    ensures TableOk(Unmounted(t, id))
  {
    var u := Unmounted(t, id);
    RemovedHas(t.live, id);
    RemovedDistinct(t.live, id);
    forall i | 0 <= i < |u.live| ensures u.live[i] in u.paths { assert u.live[i] in t.live; }
    forall x | x in u.paths ensures MountPathOk(u, x, u.paths[x]) {
      assert MountPathOk(t, x, t.paths[x]);
    }
  }

  /** Right after mounting on p, p leads to the root of the new mount; unmounting there leaves the
      mounts that were there before. */
  lemma MountThenUnmount(t: Table, p: Path)
    requires TableOk(t) && MountPathOk(t, t.next, p)
    ensures TableOk(Mounted(t, p)) && CheckMnt(Mounted(t, p), p) == Path(false, t.next, [])
    ensures Unmounted(Mounted(t, p), t.next).live == t.live
  {
    MountingKeeps(t, p);
    var u := Mounted(t, p);
    var n := |u.live|;
    assert Matches(u, p, n - 1);
    BestSoFar(u, p, n, n - 1);
    var best := BestOf(u, p, n);
    PrefixShort(u.paths[best], p);
    assert best == t.next;
    var h := Hop(u, p, best);
    assert h == Path(false, t.next, []);
    NothingInside(u, h);
    assert u.live[..n - 1] == t.live;
    NotThere(t.live, t.next);
    RemovedMore(t.live, t.next, t.next);
  }

  lemma PrefixShort(q: Path, p: Path)
    requires Prefix(q, p)
    ensures |q.comps| <= |p.comps|
  {
  }

  /** No mount hangs under the newest one. */
  lemma NothingInside(t: Table, p: Path)
    requires TableOk(t) && p.mnt == t.next - 1
    ensures CheckMnt(t, p) == p
  {
  }

  // ---- The code ------------------------------------------------------------------------------

  const EINVAL_CODE: int := -22

  class MountTable {
    var paths: map<MountId, Path>
    var live: seq<MountId>
    var next: MountId

    function View(): Table
      reads this
    {
      Table(paths, live, next)
    }

    constructor ()
      ensures View() == Table(map[], [], 1) && TableOk(View())
    {
      paths, live, next := map[], [], 1;
    }

    /** The scan of path_checkmnt over the table. */
    method BestMatch(path: Path) returns (best: MountId)
      requires TableOk(View())
      ensures best == BestOf(View(), path, |live|)
    {
      best := 0;
      var bestmatchsize := 0;
      for i := 0 to |live|
        invariant best == BestOf(View(), path, i)
        invariant bestmatchsize == if best == 0 then 0 else |paths[best].comps|
      {
        var matchsize := PathSubsumes(paths[live[i]], path);
        if matchsize >= bestmatchsize {
          best := live[i];
          bestmatchsize := matchsize;
        }
      }
    }

    method PathCheckMnt(original: Path) returns (path: PathObject)
      requires TableOk(View()) && Strings(original)
      ensures fresh(path) && path.View() == CheckMnt(View(), Cloned(original))
    {
      path := ClonePath(original);
      while true
        invariant fresh(path) && CheckMnt(View(), path.View()) == CheckMnt(View(), Cloned(original))
        decreases next - path.mnt
      {
        var best := BestMatch(path.View());
        if best == 0 { return; }
        ghost var before := path.View();
        path.mnt := best;
        path.absolute := false;
        for i := 0 to |paths[best].comps|
          invariant path.View() == Path(false, best, before.comps[i..])
        {
          path.components := path.components[1..];
        }
        assert MountPathOk(View(), best, paths[best]);
      }
    }

    method PathResolveMnt(original: Path) returns (path: Path)
      requires TableOk(View()) && PathOk(View(), original)
      ensures path == Resolve(View(), original)
    {
      CloneIdentity(original);
      var copy := ClonePath(original);
      path := copy.View();
      while path.mnt != 0
        invariant PathOk(View(), path) && Resolve(View(), path) == Resolve(View(), original)
        decreases path.mnt
      {
        Outward(View(), path);
        var mnt := path.mnt;
        assert MountPathOk(View(), mnt, paths[mnt]);
        var newpath := JoinPaths(paths[mnt], path.(mnt := 0));
        path := newpath.View();
      }
    }

    method PathToString(path: Path, nbytes: nat) returns (buf: string, ret: nat)
      requires TableOk(View()) && PathOk(View(), path)
      ensures buf == FirstBytes(Text(Resolve(View(), path)) + "\0", nbytes) && ret == |buf|
    {
      var resolved := PathResolveMnt(path);
      buf, ret := PrintPath(resolved, nbytes);
    }

    /** do_mount once the file system is set up. */
    method DoMount(path: Path)
      requires TableOk(View()) && MountPathOk(View(), next, path)
      modifies this
      ensures TableOk(View()) && View() == Mounted(old(View()), path)
    {
      MountingKeeps(View(), path);
      CloneIdentity(path);
      var copy := ClonePath(path);
      paths := paths[next := copy.View()];
      live := live + [next];
      next := next + 1;
    }

    /** do_umount; with no mount at the path it hands the null pointer to put_mount. */
    method DoUmount(original: Path) returns (res: int, crashed: bool)
      requires TableOk(View()) && Strings(original)
      modifies this`live
      ensures TableOk(View())
      ensures var at := CheckMnt(old(View()), Cloned(original));
              if at.comps != [] then res == -22 && View() == old(View()) && !crashed
              else res == 0 && View() == Unmounted(old(View()), at.mnt) && (crashed <==> at.mnt == 0)
    {
      var path := PathCheckMnt(original);
      if path.components != [] {
        return EINVAL_CODE, false;
      }
      UnmountingKeeps(View(), path.mnt);
      live := Removed(live, path.mnt);
      return 0, path.mnt == 0;
    }
  }
}
