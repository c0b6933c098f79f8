/** The path functions of src/vfs/path.c over mutable component lists, and the string functions
    they use (src/lib/string.c). */
module PathObjects {
  import opened Paths

  /** The bytes of a C string, with its terminator. */
  function CharAt(s: string, i: nat): char {
    if i < |s| then s[i] else '\0'
  }

  function Cut(s: string, n: nat): string {
    if n < |s| then s[..n] else s
  }

  /** strncmp: equal when the strings agree up to n bytes or to their ends. */
  method Strncmp(s1: string, s2: string, n: nat) returns (r: int)
    requires CString(s1) && CString(s2)
    ensures r == 0 <==> Cut(s1, n) == Cut(s2, n)
  {
    var i: nat := 0;
    while i < n
      invariant i <= n && i <= |s1| && i <= |s2| && s1[..i] == s2[..i]
    {
      if CharAt(s1, i) != CharAt(s2, i) || CharAt(s1, i) == '\0' {
        if i < |s1| && i < |s2| { assert Cut(s1, n)[i] == s1[i] && Cut(s2, n)[i] == s2[i]; }
        assert i == |s1| == |s2| ==> Cut(s1, n) == s1[..i] && Cut(s2, n) == s2[..i];
        return CharAt(s1, i) as int - CharAt(s2, i) as int;
      }
      i := i + 1;
    }
    return 0;
  }

  /** strchr from position i on, or -1. */
  method Strchr(s: string, i: nat, c: char) returns (k: int)
    requires i <= |s|
    ensures k == -1 ==> c !in s[i..]
    ensures k != -1 ==> i <= k < |s| && s[k] == c && c !in s[i..k]
  {
    k := i;
    while k < |s|
      invariant i <= k <= |s| && c !in s[i..k]
    {
      if s[k] == c { return; }
      assert s[i..k + 1] == s[i..k] + [s[k]];
      k := k + 1;
    }
    return -1;
  }

  lemma DotsExact(c: string)
    requires c != ""
    ensures Cut(DOT, |c|) == Cut(c, |c|) <==> c == DOT
    ensures Cut(DOTDOT, |c|) == Cut(c, |c|) <==> c == DOT || c == DOTDOT
  {
  }

  class PathObject {
    var absolute: bool
    var mnt: MountId
    var components: seq<string>

    function View(): Path
      reads this
    {
      Path(absolute, mnt, components)
    }

    constructor (absolute: bool, mnt: MountId)
      ensures View() == Path(absolute, mnt, [])
    {
      this.absolute, this.mnt, components := absolute, mnt, [];
    }

    method AddComponent(component: string)
      requires CString(component)
      modifies this`components
      ensures View() == Add(old(View()), component)
    {
      if |component| == 0 { return; }
      DotsExact(component);
      var dot := Strncmp(component, DOT, |component|);
      if dot == 0 { return; }
      var dotdot := Strncmp(component, DOTDOT, |component|);
      if dotdot == 0 {
        if components != [] {
          components := components[..|components| - 1];
          return;
        }
        if absolute || mnt != 0 { return; }
      }
      components := components + [component];
    }

    /** Adds a list of components in order. */
    method AddComponents(list: seq<string>)
      requires forall c :: c in list ==> CString(c)
      modifies this`components
      ensures View() == AddAll(old(View()), list)
    {
      for i := 0 to |list|
        invariant View() == AddAll(old(View()), list[..i])
      {
        AddComponent(list[i]);
        assert list[..i + 1][..i] == list[..i];
      }
      assert list[..|list|] == list;
    }
  }

  predicate Strings(p: Path) {
    forall c :: c in p.comps ==> CString(c)
  }

  lemma AddAllCons(p: Path, c: string, rest: seq<string>)
    ensures AddAll(p, [c] + rest) == AddAll(Add(p, c), rest)
  {
    AddAllConcat(p, [c], rest);
    assert [c][..0] == [];
  }

  lemma FirstComponent(s: string, k: nat)
    requires k < |s| && s[k] == '/' && '/' !in s[..k]
    ensures Split(s) == [s[..k]] + Split(s[k + 1..])
  {
    assert s == s[..k] + "/" + s[k + 1..];
    SplitConcat(s[..k], s[k + 1..]);
    SplitOne(s[..k]);
  }

  /** One component off the rest of the text. */
  lemma ParseStep(p: Path, s: string, i: nat, k: nat)
    requires i <= k < |s| && s[k] == '/' && '/' !in s[i..k]
    ensures AddAll(p, Split(s[i..])) == AddAll(Add(p, s[i..k]), Split(s[k + 1..]))
  {
    hide Split, AddAll, Add;
    var rest := s[i..];
    assert rest[..k - i] == s[i..k] && rest[k - i + 1..] == s[k + 1..];
    FirstComponent(rest, k - i);
    AddAllCons(p, s[i..k], Split(s[k + 1..]));
  }

  lemma ParseEnd(p: Path, s: string)
    requires '/' !in s
    ensures AddAll(p, Split(s)) == Add(p, s)
  {
    SplitOne(s);
    AddAllCons(p, s, []);
    assert [s] + [] == [s];
  }

  /** path_fromstr; null stands for ERR_PTR(-ENOENT). */
  method FromStr(pathstr: string) returns (path: PathObject?)
    requires CString(pathstr)
    ensures if Parse(pathstr).ENOENT? then path == null
            else path != null && fresh(path) && Parse(pathstr) == Ok(path.View())
  {
    if pathstr == "" { return null; }
    hide Split, AddAll;
    var i := 0;
    path := new PathObject(false, 0);
    if pathstr[0] == '/' {
      path.absolute := true;
      i := 1;
    }
    assert pathstr[0..] == pathstr;
    ghost var whole := AddAll(path.View(), Split(pathstr[i..]));
    assert Parse(pathstr) == Ok(whole);
    while i < |pathstr|
      invariant i <= |pathstr| && AddAll(path.View(), Split(pathstr[i..])) == whole
    {
      var splitter := Strchr(pathstr, i, '/');
      if splitter == -1 { break; }
      ParseStep(path.View(), pathstr, i, splitter);
      path.AddComponent(pathstr[i..splitter]);
      i := splitter + 1;
    }
    ParseEnd(path.View(), pathstr[i..]);
    if i < |pathstr| {
      path.AddComponent(pathstr[i..]);
    }
  }

  /** path_join; null stands for ERR_PTR(-EINVAL).  Paths are not changed once they are built. */
  method JoinPaths(x: Path, y: Path) returns (path: PathObject?)
    requires Strings(x) && Strings(y)
    ensures if Join(x, y).Ok? then path != null && fresh(path) && Join(x, y) == Ok(path.View()) else path == null
    decreases if y.absolute then 2 else 0
  {
    if y.mnt != 0 {
      return null;
    } else if y.absolute {
      path := ClonePath(y);
      return;
    }
    path := new PathObject(x.absolute, x.mnt);
    AddAllConcat(path.View(), x.comps, y.comps);
    path.AddComponents(x.comps);
    path.AddComponents(y.comps);
  }

  /** path_clone. */
  method ClonePath(original: Path) returns (path: PathObject)
    requires Strings(original)
    ensures fresh(path) && path.View() == Cloned(original)
    decreases 1
  {
    var empty := new PathObject(false, 0);
    assert original.comps + [] == original.comps;
    path := JoinPaths(original, empty.View());
  }

  // ---- Prefixes ------------------------------------------------------------------------------

  predicate Prefix(p: Path, q: Path) {
    p.mnt == q.mnt && p.absolute == q.absolute && p.comps <= q.comps
  }

  /** path_subsumes: how many components match when the parent is a prefix of the child. */
  function Subsumes(parent: Path, child: Path): int {
    if Prefix(parent, child) then |parent.comps| else -1
  }

  /** It is the number of components of the parent for each path that goes on from it. */
  lemma SubsumesExtension(parent: Path, more: seq<string>)
    ensures Subsumes(parent, parent.(comps := parent.comps + more)) == |parent.comps|
  {
  }

  /** And -1 for every other one. */
  lemma SubsumesOnlyExtensions(parent: Path, child: Path)
    ensures Subsumes(parent, child) == -1 <==> forall more :: child != parent.(comps := parent.comps + more)
  {
    if Subsumes(parent, child) != -1 {
      assert child == parent.(comps := parent.comps + child.comps[|parent.comps|..]);
    }
  }

  method PathSubsumes(parent: Path, child: Path) returns (matchsize: int)
    ensures matchsize == Subsumes(parent, child)
  {
    if parent.mnt != child.mnt || parent.absolute != child.absolute {
      return -1;
    }
    matchsize := 0;
    while true
      invariant 0 <= matchsize <= |parent.comps| && matchsize <= |child.comps|
      invariant parent.comps[..matchsize] == child.comps[..matchsize]
      decreases |parent.comps| - matchsize
    {
      var parentEnds, childEnds := matchsize == |parent.comps|, matchsize == |child.comps|;
      if (parentEnds && childEnds)
         || (!parentEnds && !childEnds && parent.comps[matchsize] == child.comps[matchsize])
      {
        if parentEnds { return; }
        matchsize := matchsize + 1;
        continue;
      }
      if parentEnds && !childEnds { return; }
      return -1;
    }
  }

  // ---- Printing into a buffer ----------------------------------------------------------------

  function FirstBytes(s: string, n: nat): string {
    if |s| < n then s else s[..n]
  }

  /** So many bytes as fit, from the first one on. */
  lemma FirstBytesFit(s: string, n: nat)
    ensures FirstBytes(s, n) <= s && |FirstBytes(s, n)| <= n && (|FirstBytes(s, n)| < n ==> FirstBytes(s, n) == s)
  {
  }

  /** path_tostring of a resolved path: as much of the text and its terminator as fits. */
  method PrintPath(path: Path, nbytes: nat) returns (buf: string, ret: nat)
    ensures buf == FirstBytes(Text(path) + "\0", nbytes) && ret == |buf|
  {
    buf, ret := "", 0;
    var left := nbytes;
    if left == 0 { return; }
    if path.comps == [] {
      left := left - 1;
      buf := buf + "/";
      ret := ret + 1;
      if left > 0 {
        buf := buf + "\0";
        ret := ret + 1;
      }
      return;
    }
    var i := 0;
    while i < |path.comps|
      invariant i <= |path.comps| && ret == |buf| && ret + left == nbytes
      invariant buf == FirstBytes(Slashed(path.comps[..i]), nbytes)
    {
      ghost var before := Slashed(path.comps[..i]);
      assert path.comps[..i + 1][..i] == path.comps[..i];
      if left == 0 {
        CutMore(path.comps, i, nbytes);
        break;
      }
      buf := buf + "/";
      ret := ret + 1;
      left := left - 1;
      var len := |path.comps[i]|;
      if len > left { len := left; }
      buf := buf + path.comps[i][..len];
      left := left - len;
      ret := ret + len;
      i := i + 1;
    }
    assert path.comps[..|path.comps|] == path.comps;
    if left > 0 {
      buf := buf + "\0";
      ret := ret + 1;
    }
  }

  /** A full buffer holds the first bytes of any longer text. */
  lemma {:induction false} CutMore(cs: seq<string>, i: nat, n: nat)
    requires i <= |cs| && n <= |Slashed(cs[..i])|
    ensures FirstBytes(Slashed(cs), n) == FirstBytes(Slashed(cs[..i]), n)
    decreases |cs|
  {
    if i < |cs| {
      assert cs[..|cs| - 1][..i] == cs[..i];
      CutMore(cs[..|cs| - 1], i, n);
    } else {
      assert cs[..i] == cs;
    }
  }
}
