/** Paths (src/vfs/path.c): a parser, a normaliser, a printer and prefix matching. */
module Paths {

  const DOT: string := "."
  const DOTDOT: string := ".."

  type MountId = nat     // 0 is the null pointer

  datatype Path = Path(absolute: bool, mnt: MountId, comps: seq<string>)

  /** A C string: no terminator inside. */
  predicate CString(s: string) {
    '\0' !in s
  }

  // ---- Components ----------------------------------------------------------------------------

  /** A path that cannot go up further: absolute or inside a mount. */
  predicate Rooted(p: Path) {
    p.absolute || p.mnt != 0
  }

  function Add(p: Path, c: string): Path {
    if c == "" || c == DOT then p
    else if c == DOTDOT && p.comps != [] then p.(comps := p.comps[..|p.comps| - 1])
    else if c == DOTDOT && Rooted(p) then p
    else p.(comps := p.comps + [c])
  }

  function AddAll(p: Path, cs: seq<string>): Path {
    if cs == [] then p else Add(AddAll(p, cs[..|cs| - 1]), cs[|cs| - 1])
  }

  /** No empty or "." component; ".." only as the first of a path that is not rooted. */
  predicate Normal(p: Path) {
    && (forall i :: 0 <= i < |p.comps| ==> p.comps[i] != "" && p.comps[i] != DOT)
    && (forall i :: 0 <= i < |p.comps| && p.comps[i] == DOTDOT ==> i == 0 && !Rooted(p))
  }

  lemma AddKeepsNormal(p: Path, c: string)
    requires Normal(p)
    ensures Normal(Add(p, c)) && Add(p, c).absolute == p.absolute && Add(p, c).mnt == p.mnt
  {
  }

  lemma {:induction false} AddAllNormal(p: Path, cs: seq<string>)
    requires Normal(p)
    ensures Normal(AddAll(p, cs)) && AddAll(p, cs).absolute == p.absolute && AddAll(p, cs).mnt == p.mnt
  {
    if cs != [] {
      AddAllNormal(p, cs[..|cs| - 1]);
      AddKeepsNormal(AddAll(p, cs[..|cs| - 1]), cs[|cs| - 1]);
    }
  }

  lemma {:induction false} AddAllConcat(p: Path, a: seq<string>, b: seq<string>)
    ensures AddAll(p, a + b) == AddAll(AddAll(p, a), b)
  {
    if b == [] {
      assert a + b == a;
    } else {
      assert (a + b)[..|a + b| - 1] == a + b[..|b| - 1];
      AddAllConcat(p, a, b[..|b| - 1]);
    }
  }

  // ---- Parsing -------------------------------------------------------------------------------

  /** The text between slashes. */
  function Split(s: string): (r: seq<string>)
    ensures r != []
  {
    if s == "" then [""] else Extended(Split(s[..|s| - 1]), s[|s| - 1])
  }

  function Extended(r: seq<string>, c: char): (r': seq<string>)
    requires r != []
    ensures r' != []
  {
    if c == '/' then r + [""] else r[..|r| - 1] + [r[|r| - 1] + [c]]
  }

  datatype Result<T> = Ok(value: T) | ENOENT | EINVAL

  function Root(absolute: bool): Path {
    Path(absolute, 0, [])
  }

  function Parse(s: string): Result<Path> {
    if s == "" then ENOENT
    else if s[0] == '/' then Ok(AddAll(Root(true), Split(s[1..])))
    else Ok(AddAll(Root(false), Split(s)))
  }

  function Join(x: Path, y: Path): Result<Path> {
    if y.mnt != 0 then EINVAL
    else if y.absolute then Ok(Cloned(y))
    else Ok(AddAll(Path(x.absolute, x.mnt, []), x.comps + y.comps))
  }

  function Cloned(p: Path): Path {
    AddAll(Path(p.absolute, p.mnt, []), p.comps)
  }

  /** Nothing the parser or join builds has an empty or "." component, or a ".." that could go. */
  lemma ParseIsNormal(s: string)
    ensures var r := Parse(s); (r.Ok? <==> s != "") && (r.Ok? ==> Normal(r.value) && r.value.mnt == 0)
  {
    if s != "" {
      AddAllNormal(Root(true), Split(s[1..]));
      AddAllNormal(Root(false), Split(s));
    }
  }

  lemma JoinIsNormal(x: Path, y: Path)
    ensures var r := Join(x, y); r.Ok? ==> Normal(r.value)
  {
    AddAllNormal(Path(x.absolute, x.mnt, []), x.comps + y.comps);
    AddAllNormal(Path(y.absolute, y.mnt, []), y.comps);
  }

  /** Joining with an absolute path gives that path, whatever it is joined to. */
  lemma JoinAbsolute(x: Path, y: Path)
    requires y.absolute && y.mnt == 0 && Normal(y)
    ensures Join(x, y) == Ok(y)
  {
    CloneIdentity(y);
  }

  lemma AddPlainOne(p: Path, c: string)
    requires c != "" && c != DOT && c != DOTDOT
    ensures Add(p, c) == p.(comps := p.comps + [c])
  {
  }

  lemma JoinOne(x: Path, c: string)
    requires Normal(x)
    ensures Join(x, Path(false, 0, [c])) == Ok(Add(x, c))
  {
    CloneIdentity(x);
    assert (x.comps + [c])[..|x.comps|] == x.comps;
    hide Normal, Add;
  }

  /** Joining fails exactly for a second path inside a mount, and otherwise keeps the root of the first
      path unless the second one has its own. */
  lemma JoinRoot(x: Path, y: Path)
    ensures Join(x, y) == EINVAL <==> y.mnt != 0
    ensures y.mnt == 0 ==> Join(x, y).Ok?
    ensures y.mnt == 0 && !y.absolute ==> Join(x, y).value.absolute == x.absolute && Join(x, y).value.mnt == x.mnt
  {
    AddAllNormal(Path(x.absolute, x.mnt, []), x.comps + y.comps);
  }

  /** Cloning is the identity exactly on normal paths. */
  lemma CloneIdentity(p: Path)
    ensures Cloned(p) == p <==> Normal(p)
  {
    AddAllNormal(Path(p.absolute, p.mnt, []), p.comps);
    if Normal(p) { AddAllOfNormal(p, |p.comps|); }
    assert p.comps[..|p.comps|] == p.comps;
  }

  lemma {:induction false} AddAllOfNormal(p: Path, n: nat)
    requires Normal(p) && n <= |p.comps|
    ensures AddAll(Path(p.absolute, p.mnt, []), p.comps[..n]) == p.(comps := p.comps[..n])
  {
    if n > 0 {
      AddAllOfNormal(p, n - 1);
      assert p.comps[..n][..n - 1] == p.comps[..n - 1];
      assert p.comps[..n] == p.comps[..n - 1] + [p.comps[n - 1]];
    }
  }

  // ---- Printing ------------------------------------------------------------------------------

  function Slashed(cs: seq<string>): string {
    if cs == [] then "" else Slashed(cs[..|cs| - 1]) + "/" + cs[|cs| - 1]
  }

  /** The text of a resolved path. */
  function Text(p: Path): string {
    if p.comps == [] then "/" else Slashed(p.comps)
  }

  predicate NoSlash(cs: seq<string>) {
    forall i :: 0 <= i < |cs| ==> '/' !in cs[i]
  }

  lemma {:induction false} SplitNoSlash(s: string)
    ensures NoSlash(Split(s))
  {
    if s != "" { SplitNoSlash(s[..|s| - 1]); }
  }

  lemma {:induction false} AddAllFrom(p: Path, cs: seq<string>)
    ensures forall c :: c in AddAll(p, cs).comps ==> c in p.comps || c in cs
  {
    if cs != [] {
      AddAllFrom(p, cs[..|cs| - 1]);
      assert cs == cs[..|cs| - 1] + [cs[|cs| - 1]];
    }
  }

  lemma ExtendedConcat(a: seq<string>, b: seq<string>, c: char)
    requires b != []
    ensures Extended(a + b, c) == a + Extended(b, c)
  {
  }

  lemma SplitStep(s: string, c: char)
    ensures Split(s + [c]) == Extended(Split(s), c)
  {
  }

  lemma {:induction false} SplitConcat(a: string, b: string)
    ensures Split(a + "/" + b) == Split(a) + Split(b)
  {
    hide Split;
    if b == "" {
      assert a + "/" + b == a + ['/'];
      SplitStep(a, '/');
      SplitEmpty();
    } else {
      var before, c := b[..|b| - 1], b[|b| - 1];
      assert b == before + [c];
      assert a + "/" + b == (a + "/" + before) + [c];
      SplitConcat(a, before);
      SplitStep(a + "/" + before, c);
      SplitStep(before, c);
      ExtendedConcat(Split(a), Split(before), c);
    }
  }

  lemma SplitEmpty()
    ensures Split("") == [""]
  {
  }

  lemma {:induction false} SplitOne(c: string)
    requires '/' !in c
    ensures Split(c) == [c]
  {
    if c != "" {
      SplitOne(c[..|c| - 1]);
      assert c == c[..|c| - 1] + [c[|c| - 1]];
    }
  }

  lemma {:induction false} SplitSlashed(cs: seq<string>)
    requires NoSlash(cs)
    ensures Split(Slashed(cs)) == [""] + cs
  {
    if cs != [] {
      SplitSlashed(cs[..|cs| - 1]);
      SplitConcat(Slashed(cs[..|cs| - 1]), cs[|cs| - 1]);
      SplitOne(cs[|cs| - 1]);
      assert cs == cs[..|cs| - 1] + [cs[|cs| - 1]];
    }
  }

  lemma {:induction false} SlashedStarts(cs: seq<string>)
    requires cs != []
    ensures Slashed(cs) != "" && Slashed(cs)[0] == '/'
  {
    if |cs| > 1 { SlashedStarts(cs[..|cs| - 1]); }
  }

  lemma SplitHead(s: string)
    requires s != "" && s[0] == '/'
    ensures Split(s) == [""] + Split(s[1..])
  {
    SplitConcat("", s[1..]);
    assert "" + "/" + s[1..] == s;
  }

  /** Parsing the text of an absolute path gives the path back. */
  lemma TextRoundTrip(p: Path)
    requires Normal(p) && p.absolute && p.mnt == 0 && NoSlash(p.comps)
    ensures Parse(Text(p)) == Ok(p)
  {
    var t := Text(p);
    if p.comps == [] {
      assert t[1..] == "";
      assert AddAll(Root(true), [""]) == Root(true);
    } else {
      SlashedStarts(p.comps);
      SplitSlashed(p.comps);
      SplitHead(t);
      assert Split(t[1..]) == p.comps by {
        assert ([""] + Split(t[1..]))[1..] == Split(t[1..]);
        assert ([""] + p.comps)[1..] == p.comps;
      }
      AddAllOfNormal(p, |p.comps|);
      assert p.comps[..|p.comps|] == p.comps;
    }
  }

  /** Without hypotheses on components: any absolute text, parsed and printed, parses to the same. */
  lemma PrintedParses(s: string)
    requires s != "" && s[0] == '/'
    ensures Parse(Text(Parse(s).value)) == Parse(s)
  {
    ParseIsNormal(s);
    SplitNoSlash(s[1..]);
    AddAllFrom(Root(true), Split(s[1..]));
    AddAllNormal(Root(true), Split(s[1..]));
    var p := Parse(s).value;
    forall i | 0 <= i < |p.comps| ensures '/' !in p.comps[i] {
      assert p.comps[i] in p.comps;
    }
    hide AddAll, Split, Text, Normal;
    TextRoundTrip(p);
  }

  // ---- What the components of a text mean ----------------------------------------------------

  /** A slash and one component more at the end of a text. */
  lemma ParseAppend(s: string, c: string)
    requires s != "" && '/' !in c
    ensures Parse(s).Ok? && Parse(s + "/" + c) == Ok(Add(Parse(s).value, c))
    ensures Parse(s).value.mnt == 0 && (Parse(s).value.absolute <==> s[0] == '/')
  {
    SplitOne(c);
    if c == "" { LastEmpty(s); } else { ParseOfJoined(s, c); }
    ParseIsNormal(s);
    AddAllOne(Parse(s).value, c);
    AddAllNormal(Root(true), Split(s[1..]));
    AddAllNormal(Root(false), Split(s));
    hide Split, AddAll, Add, Normal;
  }

  /** An empty component or "." adds nothing, ".." takes the last component away, or is kept where there
      is none to take and the path is relative, and any other component is added. */
  lemma LastComponentMeans(s: string, c: string)
    requires s != "" && '/' !in c
    ensures Parse(s).Ok? && Parse(s + "/" + c).Ok?
    ensures var p, q := Parse(s).value, Parse(s + "/" + c).value;
            && q.absolute == p.absolute && q.mnt == p.mnt
            && (c == "" || c == "." ==> q == p)
            && (c == ".." && p.comps != [] ==> q.comps == p.comps[..|p.comps| - 1])
            && (c == ".." && p.comps == [] ==> q.comps == if s[0] == '/' then [] else [".."])
            && (c != "" && c != "." && c != ".." ==> q.comps == p.comps + [c])
  {
    hide Parse;
    ParseAppend(s, c);
  }

  lemma AddAllOne(p: Path, c: string)
    ensures AddAll(p, [c]) == Add(p, c)
  {
    assert AddAll(p, []) == p;
  }

  lemma LastEmpty(s: string)
    requires s != ""
    ensures Parse(s + "/" + "") == Ok(AddAll(Parse(s).value, [""]))
  {
    assert s + "/" + "" == s + ['/'] && (s + "/")[0] == s[0];
    if s[0] == '/' {
      assert (s + ['/'])[1..] == s[1..] + ['/'];
      SplitStep(s[1..], '/');
    } else {
      SplitStep(s, '/');
    }
    var r := if s[0] == '/' then Split(s[1..]) else Split(s);
    assert (r + [""])[..|r|] == r;
    AddAllOne(Parse(s).value, "");
  }

  /** A text of one component. */
  lemma OneComponent(c: string)
    requires '/' !in c && c != "" && c != DOT && c != DOTDOT
    ensures Parse(c) == Ok(Path(false, 0, [c]))
  {
    SplitOne(c);
    hide Split;
    AddAllOne(Root(false), c);
  }

  /** At the root ".." stays there; a relative path keeps it. */
  lemma DotsAlone()
    ensures Parse("..") == Ok(Path(false, 0, [".."])) && Parse("/..") == Parse("/") == Ok(Path(true, 0, []))
    ensures Parse(".") == Ok(Path(false, 0, []))
  {
    SplitOne("..");
    SplitOne(".");
    SplitOne("");
    assert "/.."[1..] == ".." && "/"[1..] == "";
    hide Split;
    AddAllOne(Root(true), "..");
    AddAllOne(Root(false), "..");
    AddAllOne(Root(false), ".");
    AddAllOne(Root(true), "");
  }

  // ---- Joining -------------------------------------------------------------------------------

  /** What a list of components does to any path: it goes up `ups` levels and adds `tail`. */
  datatype Net = Net(ups: nat, tail: seq<string>)

  function NetAdd(n: Net, c: string): Net {
    if c == "" || c == DOT then n
    else if c != DOTDOT then n.(tail := n.tail + [c])
    else if n.tail != [] then n.(tail := n.tail[..|n.tail| - 1])
    else n.(ups := n.ups + 1)
  }

  function NetOf(cs: seq<string>): Net {
    if cs == [] then Net(0, []) else NetAdd(NetOf(cs[..|cs| - 1]), cs[|cs| - 1])
  }

  /** Going up n levels by "..". */
  function Ups(p: Path, n: nat): Path {
    if n == 0 then p else Add(Ups(p, n - 1), DOTDOT)
  }

  /** No "" or "." or "..". */
  predicate Plain(cs: seq<string>) {
    forall i :: 0 <= i < |cs| ==> cs[i] != "" && cs[i] != DOT && cs[i] != DOTDOT
  }

  lemma NetStep(u: Path, v: Path, n: Net, c: string)
    requires v == u.(comps := u.comps + n.tail) && Plain(n.tail)
    ensures Plain(NetAdd(n, c).tail)
    ensures var w := if NetAdd(n, c).ups == n.ups then u else Add(u, DOTDOT);
            Add(v, c) == w.(comps := w.comps + NetAdd(n, c).tail)
  {
  }

  lemma {:induction false} NetMeans(p: Path, cs: seq<string>)
    ensures Plain(NetOf(cs).tail)
    ensures AddAll(p, cs) == Then(p, NetOf(cs), NetOf(cs).ups)
  {
    if cs == [] {
      assert p.comps + [] == p.comps;
    } else {
      var before, c := cs[..|cs| - 1], cs[|cs| - 1];
      NetMeans(p, before);
      NetStep(Ups(p, NetOf(before).ups), AddAll(p, before), NetOf(before), c);
      hide Add, Plain;
    }
  }

  function Then(p: Path, n: Net, ups: nat): Path {
    Ups(p, ups).(comps := Ups(p, ups).comps + n.tail)
  }

  /** Nothing but kept "..": going up by two more levels changes nothing from here on. */
  predicate OnlyKept(p: Path) {
    forall i :: 0 <= i < |p.comps| ==> p.comps[i] == DOTDOT
  }

  lemma KeptIsShort(p: Path)
    requires Normal(p)
    ensures |p.comps| > 1 ==> !OnlyKept(p)
  {
    if |p.comps| > 1 {
      assert p.comps[1] != DOTDOT;
    }
  }

  lemma KeptCases(p: Path)
    requires Normal(p) && OnlyKept(p)
    ensures p.comps == [] || (p.comps == [DOTDOT] && !Rooted(p))
  {
    KeptIsShort(p);
    if p.comps != [] { assert p.comps[0] == DOTDOT; }
  }

  lemma KeptStep(p: Path)
    requires Normal(p) && OnlyKept(p)
    ensures Normal(Add(p, DOTDOT)) && OnlyKept(Add(p, DOTDOT)) && Add(Add(p, DOTDOT), DOTDOT) == p
  {
    KeptCases(p);
    AddKeepsNormal(p, DOTDOT);
    hide Normal;
    assert DOTDOT != "" && DOTDOT != DOT by { assert |DOTDOT| == 2 && |DOT| == 1; }
    if p.comps == [] {
      assert p.comps + [DOTDOT] == [DOTDOT] && [DOTDOT][..0] == [];
    } else {
      assert p.comps[..0] == [] && [] + [DOTDOT] == p.comps;
    }
  }

  lemma {:induction false} UpsOfKept(p: Path, n: nat)
    requires Normal(p) && OnlyKept(p)
    ensures Ups(p, 2 * n) == p
  {
    if n > 0 {
      UpsOfKept(p, n - 1);
      KeptStep(p);
      assert Ups(p, 2 * n) == Add(Ups(p, 2 * n - 1), DOTDOT) == Add(Add(Ups(p, 2 * n - 2), DOTDOT), DOTDOT);
    }
  }

  lemma {:induction false} UpsShorten(p: Path, n: nat)
    requires Normal(p)
    ensures Normal(Ups(p, n))
    ensures n <= |p.comps| ==> Ups(p, n).comps == p.comps[..|p.comps| - n]
    ensures n > |p.comps| ==> OnlyKept(Ups(p, n))
    ensures Ups(p, n).absolute == p.absolute && Ups(p, n).mnt == p.mnt
  {
    if n > 0 { UpsShorten(p, n - 1); }
  }

  lemma {:induction false} UpsAdd(p: Path, m: nat, n: nat)
    ensures Ups(Ups(p, m), n) == Ups(p, m + n)
  {
    if n > 0 { UpsAdd(p, m, n - 1); }
  }

  /** Two or more further levels up lead back to a normal path only where no real component is left. */
  lemma EvenUps(p: Path, n: nat)
    requires Normal(p) && n > 0
    ensures Ups(p, 2 * n) == p <==> OnlyKept(p)
  {
    if OnlyKept(p) { UpsOfKept(p, n); }
    UpsShorten(p, 2 * n);
  }

  /** What the parse of a relative text keeps of its levels up. */
  lemma {:induction false} KeptOfUps(n: nat)
    ensures Ups(Root(false), n) == Path(false, 0, if n % 2 == 0 then [] else [DOTDOT])
  {
    if n > 0 { KeptOfUps(n - 1); }
  }

  lemma RelativeParse(s: string)
    requires s != "" && s[0] != '/'
    ensures var n := NetOf(Split(s));
            Parse(s) == Ok(Path(false, 0, (if n.ups % 2 == 0 then [] else [DOTDOT]) + n.tail))
  {
    NetMeans(Root(false), Split(s));
    KeptOfUps(NetOf(Split(s)).ups);
  }

  /** Adding what a relative parse kept goes up once at most. */
  lemma {:induction false} AddPlain(p: Path, tail: seq<string>)
    requires Plain(tail)
    ensures AddAll(p, tail) == p.(comps := p.comps + tail)
  {
    if tail == [] {
      assert p.comps + tail == p.comps;
    } else {
      AddPlain(p, tail[..|tail| - 1]);
      assert tail == tail[..|tail| - 1] + [tail[|tail| - 1]];
    }
  }

  lemma AddParsed(p: Path, n: Net)
    requires Plain(n.tail)
    ensures var kept := if n.ups % 2 == 0 then [] else [DOTDOT];
            AddAll(p, kept + n.tail) == Ups(p, n.ups % 2).(comps := Ups(p, n.ups % 2).comps + n.tail)
  {
    var kept := if n.ups % 2 == 0 then [] else [DOTDOT];
    AddAllConcat(p, kept, n.tail);
    AddPlain(AddAll(p, kept), n.tail);
    assert [DOTDOT][..0] == [];
    assert AddAll(p, kept) == Ups(p, n.ups % 2);
  }

  /** Parsing a/b adds the components of b to the parse of a. */
  lemma ParseOfJoined(a: string, b: string)
    requires a != "" && b != ""
    ensures Parse(a).Ok? && Parse(a + "/" + b) == Ok(AddAll(Parse(a).value, Split(b)))
  {
    hide Split, AddAll;
    var s := a + "/" + b;
    assert s[0] == a[0];
    if a[0] == '/' {
      assert s[1..] == a[1..] + "/" + b;
      SplitConcat(a[1..], b);
      AddAllConcat(Root(true), Split(a[1..]), Split(b));
    } else {
      SplitConcat(a, b);
      AddAllConcat(Root(false), Split(a), Split(b));
    }
  }

  lemma JoinWithParse(p: Path, b: string)
    requires Normal(p) && b != "" && b[0] != '/'
    ensures Parse(b).Ok? && Join(p, Parse(b).value) == Ok(Then(p, NetOf(Split(b)), NetOf(Split(b)).ups % 2))
  {
    var n := NetOf(Split(b));
    RelativeParse(b);
    NetMeans(p, Split(b));
    CloneIdentity(p);
    AddAllConcat(Path(p.absolute, p.mnt, []), p.comps, Parse(b).value.comps);
    AddParsed(p, n);
  }

  lemma UpsAgree(p: Path, ups: nat)
    requires Normal(p)
    ensures Ups(p, ups) == Ups(p, ups % 2) <==> ups < 2 || OnlyKept(Ups(p, ups % 2))
  {
    UpsShorten(p, ups % 2);
    UpsAdd(p, ups % 2, ups - ups % 2);
    if ups >= 2 {
      assert ups - ups % 2 == 2 * (ups / 2);
      EvenUps(Ups(p, ups % 2), ups / 2);
    }
  }

  /** Joining the parses of a and of a relative b is parsing a/b, exactly when b does not go up two
      or more levels, or nothing real was left to go up from. */
  lemma JoinIsParseOfJoined(a: string, b: string)
    requires a != "" && b != "" && b[0] != '/'
    ensures Parse(a).Ok? && Parse(b).Ok?
    ensures var ups := NetOf(Split(b)).ups;
            Join(Parse(a).value, Parse(b).value) == Parse(a + "/" + b)
            <==> ups < 2 || OnlyKept(Ups(Parse(a).value, ups % 2))
  {
    var n := NetOf(Split(b));
    ParseIsNormal(a);
    var p := Parse(a).value;
    JoinWithParse(p, b);
    ParseOfJoined(a, b);
    NetMeans(p, Split(b));
    UpsAgree(p, n.ups);
    UpsShorten(p, n.ups);
    UpsShorten(p, n.ups % 2);
    SameThen(p, n);
  }

  lemma SameThen(p: Path, n: Net)
    requires Normal(p)
    ensures Then(p, n, n.ups % 2) == Then(p, n, n.ups) <==> Ups(p, n.ups % 2) == Ups(p, n.ups)
  {
    UpsShorten(p, n.ups);
    UpsShorten(p, n.ups % 2);
    SameSuffix(Ups(p, n.ups % 2).comps, Ups(p, n.ups).comps, n.tail);
  }

  lemma SameSuffix<T>(a: seq<T>, b: seq<T>, c: seq<T>)
    ensures a + c == b + c <==> a == b
  {
    if a + c == b + c {
      assert |a| == |b|;
      assert a == (a + c)[..|a|] == (b + c)[..|b|] == b;
    }
  }

  /** For instance "a" and "../..": joined they name the start, parsed together its parent. */
  lemma JoinPopsKept()
    ensures Join(Parse("a").value, Parse("../..").value) == Ok(Path(false, 0, ["a"]))
    ensures Parse("a/../..") == Ok(Path(false, 0, [".."]))
  {
    hide Parse, Join, Add, AddAll, Split;
    OneComponent("a");
    DotsAlone();
    ParseAppend("..", "..");
    ParseAppend("a", "..");
    ParseAppend("a/..", "..");
    assert ".." + "/" + ".." == "../.." && "a" + "/" + ".." == "a/.." && "a/.." + "/" + ".." == "a/../..";
    AddDots(Path(false, 0, []), "a");
    JoinNothing(Path(false, 0, ["a"]));
  }

  lemma AddDots(p: Path, c: string)
    requires p.comps == [] && !Rooted(p)
    ensures Add(p, "..") == p.(comps := [".."]) && Add(p.(comps := [c]), "..") == p
    ensures Add(p.(comps := [".."]), "..") == p && Normal(p.(comps := [".."]))
    ensures c != "" && c != DOT && c != DOTDOT ==> Normal(p.(comps := [c]))
  {
  }

  lemma JoinNothing(x: Path)
    requires Normal(x)
    ensures Join(x, Path(false, 0, [])) == Ok(x)
  {
    CloneIdentity(x);
    assert x.comps + [] == x.comps;
  }
}
