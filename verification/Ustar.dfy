/** Directories of a ustar archive (src/fs/ustar.c; the ustar Interchange Format of the pax utility,
    POSIX.1-2017).  An archive is a list of entries, each a header sector followed by the sectors of
    the file; a header without a name ends it. */
module Ustar {
  import opened Paths
  import opened PathObjects

  const SECTOR_SIZE: nat := 512
  const WORD: nat := 0x1_0000_0000
  const FIRST_INO: nat := 2

  datatype Header = End | Entry(name: string, prefix: string, size: string, kind: char)

  // ---- Sizes ---------------------------------------------------------------------------------

  predicate Octal(c: char) {
    '0' <= c <= '7'
  }

  /** The leading octal digits. */
  function Digits(s: string): string {
    if s == "" || !Octal(s[0]) then "" else [s[0]] + Digits(s[1..])
  }

  function OctalValue(s: string): nat
    requires forall c :: c in s ==> Octal(c)
  {
    if s == "" then 0 else
    assert s[|s| - 1] in s;
    8 * OctalValue(s[..|s| - 1]) + DigitOf(s[|s| - 1])
  }

  function DigitOf(c: char): (d: nat)
    requires Octal(c)
    ensures d < 8
  {
    c as int - '0' as int
  }

  lemma {:induction false} DigitsAre(s: string)
    ensures Digits(s) <= s && (forall c :: c in Digits(s) ==> Octal(c))
    ensures |Digits(s)| < |s| ==> !Octal(s[|Digits(s)|])
  {
    if s != "" && Octal(s[0]) { DigitsAre(s[1..]); }
  }

  const OCTAL_DIGITS: string := "01234567"

  /** A number in octal, as it is printed. */
  function OctalText(n: nat): (s: string)
    ensures forall c :: c in s ==> Octal(c)
  {
    if n == 0 then "" else OctalText(n / 8) + [OCTAL_DIGITS[n % 8]]
  }

  /** It reads back as that number, with leading zeros too. */
  lemma {:induction false} OctalRoundTrip(n: nat)
    ensures OctalValue(OctalText(n)) == n
  {
    if n > 0 {
      OctalRoundTrip(n / 8);
      var s := OctalText(n);
      assert s[..|s| - 1] == OctalText(n / 8);
    }
  }

  lemma {:induction false} LeadingZero(s: string)
    requires forall c :: c in s ==> Octal(c)
    ensures (forall c :: c in "0" + s ==> Octal(c)) && OctalValue("0" + s) == OctalValue(s)
  {
    if s != "" {
      assert ("0" + s)[..|s|] == "0" + s[..|s| - 1];
      LeadingZero(s[..|s| - 1]);
    }
  }

  function FileSize(h: Header): nat
    requires h.Entry?
  {
    DigitsAre(h.size);
    OctalValue(Digits(h.size)) % WORD
  }

  /** The longest run of octal digits. */
  lemma {:induction false} DigitsUnique(s: string, n: nat)
    requires n <= |s| && (forall i :: 0 <= i < n ==> Octal(s[i])) && (n == |s| || !Octal(s[n]))
    ensures Digits(s) == s[..n]
  {
    if n > 0 {
      DigitsUnique(s[1..], n - 1);
      assert s[..n] == [s[0]] + s[1..][..n - 1];
    }
  }

  lemma StepInWord(v: nat, d: nat)
    requires d < 8
    ensures (8 * v + d) % WORD == (v % WORD * 8 % WORD + d) % WORD
  {
    var q, r := v / WORD, v % WORD;
    assert v == q * WORD + r;
    var q2, r2 := r * 8 / WORD, r * 8 % WORD;
    assert 8 * v + d == (8 * q + q2) * WORD + (r2 + d);
    SameRest(8 * q + q2, r2 + d);
  }

  lemma SameRest(q: nat, x: nat)
    ensures (q * WORD + x) % WORD == x % WORD
  {
  }

  lemma OctalStep(s: string, c: char)
    requires (forall d :: d in s ==> Octal(d)) && Octal(c)
    ensures forall d :: d in s + [c] ==> Octal(d)
    ensures OctalValue(s + [c]) % WORD == (OctalValue(s) % WORD * 8 % WORD + DigitOf(c)) % WORD
  {
    assert (s + [c])[..|s|] == s;
    StepInWord(OctalValue(s), DigitOf(c));
  }

  /** oct2bin, in 32 bits. */
  method Oct2Bin(str: string) returns (n: nat)
    ensures (forall c :: c in Digits(str) ==> Octal(c)) && n == OctalValue(Digits(str)) % 0x1_0000_0000
  {
    DigitsAre(str);
    n := 0;
    var i := 0;
    while i < |str|
      invariant i <= |str| && (forall j :: 0 <= j < i ==> Octal(str[j]))
      invariant (forall c :: c in str[..i] ==> Octal(c)) && n == OctalValue(str[..i]) % WORD
    {
      if str[i] < '0' || str[i] > '7' { break; }
      OctalStep(str[..i], str[i]);
      assert str[..i + 1] == str[..i] + [str[i]];
      n := n * 8 % WORD;
      n := (n + DigitOf(str[i])) % WORD;
      i := i + 1;
    }
    DigitsUnique(str, i);
  }

  /** size_to_sectors, in 32 bits: the header and the sectors of the file. */
  function SizeToSectors(size: nat): nat {
    (size + (SECTOR_SIZE - 1)) % WORD / SECTOR_SIZE + 1
  }

  /** For sizes that do not wrap the file fits, with less than a sector to spare. */
  lemma SectorsHoldFile(size: nat)
    ensures SizeToSectors(size) >= 1
    ensures size + 512 <= 0x1_0000_0000 ==>
              size <= (SizeToSectors(size) - 1) * 512 < size + 512
  {
  }

  /** The entries of an archive have names. */
  predicate Named(a: seq<Header>) {
    forall i :: 0 <= i < |a| ==> a[i].Entry? && a[i].name != ""
  }

  /** Where header k lies; k == |a| is the end mark. */
  function Sector(a: seq<Header>, k: nat): nat
    requires k <= |a| && Named(a)
  {
    if k == 0 then 0 else Sector(a, k - 1) + SizeToSectors(FileSize(a[k - 1]))
  }

  /** The sector index grows strictly from header to header. */
  lemma {:induction false} SectorGrows(a: seq<Header>, j: nat, k: nat)
    requires j < k <= |a| && Named(a)
    ensures Sector(a, j) < Sector(a, k)
  {
    if j < k - 1 { SectorGrows(a, j, k - 1); }
  }

  /** What the device holds: the headers of the archive at their sectors, then the end mark. */
  ghost predicate Holds(dev: map<nat, Header>, a: seq<Header>) {
    && Named(a) && (forall i :: 0 <= i < |a| ==> CString(a[i].name) && CString(a[i].prefix))
    && (forall k :: 0 <= k <= |a| ==> Sector(a, k) in dev && dev[Sector(a, k)] == if k < |a| then a[k] else End)
    && Sector(a, |a|) * SECTOR_SIZE < WORD
  }

  // ---- Children ------------------------------------------------------------------------------

  /** ustar_inode_path. */
  function PathOf(h: Header): Path
    requires h.Entry? && h.name != ""
  {
    if h.prefix == "" then Parse(h.name).value
    else
      ParseIsNormal(h.name);
      Join(Parse(h.prefix).value, Parse(h.name).value).value
  }

  /** A name without prefix is the path, and one below a prefix is the path of the two joined by a slash,
      unless it climbs out of the prefix twice where something real was left to climb from. */
  lemma PathOfText(h: Header)
    requires h.Entry? && h.name != ""
    ensures h.prefix == "" ==> Parse(h.name) == Ok(PathOf(h))
    ensures h.prefix != "" && h.name[0] == '/' ==> Parse(h.name) == Ok(PathOf(h))
    ensures h.prefix != "" && h.name[0] != '/' ==>
      (Parse(h.prefix + "/" + h.name) == Ok(PathOf(h)) <==>
        NetOf(Split(h.name)).ups < 2 || OnlyKept(Ups(Parse(h.prefix).value, NetOf(Split(h.name)).ups % 2)))
  {
    ParseIsNormal(h.name);
    if h.prefix != "" {
      ParseIsNormal(h.prefix);
      if h.name[0] == '/' {
        AddAllNormal(Root(true), Split(h.name[1..]));
        JoinAbsolute(Parse(h.prefix).value, Parse(h.name).value);
      } else {
        JoinIsParseOfJoined(h.prefix, h.name);
        JoinRoot(Parse(h.prefix).value, Parse(h.name).value);
      }
    }
  }

  /** For instance one component below another. */
  lemma PlainName(h: Header)
    requires h.Entry? && h.name != "" && Plain([h.name]) && Plain([h.prefix])
    requires '/' !in h.name && '/' !in h.prefix
    ensures PathOf(h) == Path(false, 0, [h.prefix, h.name])
  {
    assert [h.name][0] == h.name && [h.prefix][0] == h.prefix;
    hide Parse, Join, Add;
    OneComponent(h.name);
    OneComponent(h.prefix);
    JoinOne(Path(false, 0, [h.prefix]), h.name);
    AddPlainOne(Path(false, 0, [h.prefix]), h.name);
  }

  /** A real child: one more component than the parent. */
  predicate Child(parent: Path, p: Path) {
    && parent.mnt == p.mnt && parent.absolute == p.absolute
    && p.comps != [] && p.comps[..|p.comps| - 1] == parent.comps
  }

  /** path_is_direct_decendent compares -1 with an unsigned difference. */
  predicate DirectDescendant(parent: Path, p: Path) {
    (Subsumes(parent, p) + WORD) % WORD == (|p.comps| - 1 + WORD) % WORD
  }

  /** The comparison means a child, except that a path without components passes whenever the parent
      is not a prefix of it. */
  lemma DirectDescendantMeans(parent: Path, p: Path)
    requires |p.comps| < WORD
    ensures DirectDescendant(parent, p) <==> Child(parent, p) || (p.comps == [] && !Prefix(parent, p))
  {
  }

  datatype Kind = Regular | Link | CharDevice | BlockDevice | Directory | Fifo | Unset

  function KindOf(c: char): Kind {
    match c
    case '\0' => Regular
    case '0' => Regular
    case '1' => Link
    case '2' => Link
    case '3' => CharDevice
    case '4' => BlockDevice
    case '5' => Directory
    case '6' => Fifo
    case _ => Unset
  }

  datatype Dirent = Dirent(name: string, offset: nat, ino: nat, kind: Kind)

  ghost function DirentOf(a: seq<Header>, k: nat): Dirent
    requires k < |a| && Named(a) && PathOf(a[k]).comps != []
  {
    Shown(PathOf(a[k]), Sector(a, k), a[k])
  }

  function Shown(p: Path, sector: nat, h: Header): Dirent
    requires p.comps != [] && h.Entry?
  {
    Dirent(p.comps[|p.comps| - 1], sector, sector + FIRST_INO, KindOf(h.kind))
  }

  /** The kinds of the type flags, each of them for just these. */
  lemma KindsExactly(c: char)
    ensures KindOf(c) == Directory <==> c == '5'
    ensures KindOf(c) == Regular <==> c == '0' || c == '\0'
    ensures KindOf(c) == Link <==> c == '1' || c == '2'
    ensures KindOf(c) == CharDevice <==> c == '3'
    ensures KindOf(c) == BlockDevice <==> c == '4'
    ensures KindOf(c) == Fifo <==> c == '6'
  {
  }

  ghost predicate IsChild(a: seq<Header>, parent: Path, k: nat) {
    k < |a| && a[k].Entry? && a[k].name != "" && Child(parent, PathOf(a[k]))
  }

  /** The children among the entries from j up to k, in archive order. */
  ghost function Children(a: seq<Header>, parent: Path, j: nat, k: nat): seq<Dirent>
    requires j <= k <= |a| && Named(a)
  {
    if j == k then []
    else Children(a, parent, j, k - 1) + ChildAt(a, parent, k - 1)
  }

  ghost function ChildAt(a: seq<Header>, parent: Path, k: nat): seq<Dirent>
    requires Named(a)
  {
    if IsChild(a, parent, k) then [DirentOf(a, k)] else []
  }

  lemma {:induction false} ChildrenSplit(a: seq<Header>, parent: Path, i: nat, j: nat, k: nat)
    requires i <= j <= k <= |a| && Named(a)
    ensures Children(a, parent, i, j) + Children(a, parent, j, k) == Children(a, parent, i, k)
  {
    hide Named, ChildAt;
    if j < k {
      ChildrenSplit(a, parent, i, j, k - 1);
      assert Children(a, parent, i, j) + (Children(a, parent, j, k - 1) + ChildAt(a, parent, k - 1))
          == (Children(a, parent, i, j) + Children(a, parent, j, k - 1)) + ChildAt(a, parent, k - 1);
    }
  }

  /** The empty path, when it is not below the parent: the test takes it for a child, and its missing
      last component is dereferenced. */
  ghost predicate EmptyOutside(a: seq<Header>, parent: Path, k: nat) {
    && k < |a| && a[k].Entry? && a[k].name != ""
    && PathOf(a[k]).comps == [] && !Prefix(parent, PathOf(a[k]))
  }

  /** A listing between two calls: the next header, how often the receiver was asked and what it took,
      and whether the call before came to a null dereference or to an error of the device. */
  datatype Listing = Listing(at: nat, calls: nat, taken: seq<Dirent>, crashed: bool, error: int)

  /** The sectors that the device refuses, each with its error. */
  type Faults = f: map<nat, int> | forall s :: s in f ==> f[s] < 0 witness map[]

  function LastAnswer(answers: nat -> int, s: Listing, t: Listing): int {
    if t.calls > s.calls then answers(t.calls - 1) else 0
  }

  /** One call of ustar_readdir for a receiver that gives `answers`: it asks for each child in turn
      while the answer is 0.  A refused child is the next one to ask for, an entry taken with a stop
      is the last one passed; otherwise only the end, a sector that the device refuses and an empty
      path stop it. */
  ghost predicate Called(a: seq<Header>, parent: Path, answers: nat -> int, faults: Faults, s: Listing, t: Listing)
    requires Named(a)
  {
    && !s.crashed && s.at <= t.at <= |a| && s.calls <= t.calls
    && t.taken == s.taken + Children(a, parent, s.at, t.at)
    && t.calls == s.calls + |Children(a, parent, s.at, t.at)| + (if LastAnswer(answers, s, t) < 0 then 1 else 0)
    && (forall i: nat :: s.at <= i < t.at ==> !EmptyOutside(a, parent, i) && Sector(a, i) !in faults)
    && (forall n: nat :: s.calls <= n && n + 1 < t.calls ==> answers(n) == 0)
    && (LastAnswer(answers, s, t) != 0 ==> !t.crashed && t.error == 0)
    && if LastAnswer(answers, s, t) < 0 then IsChild(a, parent, t.at) && Sector(a, t.at) !in faults
       else if LastAnswer(answers, s, t) > 0 then s.at < t.at && IsChild(a, parent, t.at - 1)
       else if Sector(a, t.at) in faults then !t.crashed && t.error == faults[Sector(a, t.at)]
       else t.error == 0 && if t.crashed then EmptyOutside(a, parent, t.at) else t.at == |a|
  }

  lemma CrashedAt(a: seq<Header>, parent: Path, answers: nat -> int, faults: Faults, s: Listing, t: Listing)
    requires Named(a) && Called(a, parent, answers, faults, s, t) && t.crashed
    ensures t.at < |a| && EmptyOutside(a, parent, t.at)
  {
    hide Named, Children, IsChild, PathOf, Prefix;
  }

  /** Calls one after the other on the same open directory, each with what the device refuses then. */
  ghost predicate Calls(a: seq<Header>, parent: Path, answers: nat -> int, faults: nat -> Faults, ls: seq<Listing>)
    requires Named(a)
  {
    && ls != [] && ls[0].at <= |a|
    && forall i: nat :: i + 1 < |ls| ==> NextCall(a, parent, answers, faults, ls, i)
  }

  ghost predicate NextCall(a: seq<Header>, parent: Path, answers: nat -> int, faults: nat -> Faults, ls: seq<Listing>,
                           i: nat)
    requires Named(a) && i + 1 < |ls|
  {
    Called(a, parent, answers, faults(i), ls[i], ls[i + 1])
  }

  /** However often the receiver or the device refuses or stops, the calls together deliver each child up to the
      header they reach exactly once, in archive order, and pass over no empty path. */
  lemma {:induction false} CallsDeliverOnce(a: seq<Header>, parent: Path, answers: nat -> int,
                                            faults: nat -> Faults, ls: seq<Listing>)
    requires Named(a) && Calls(a, parent, answers, faults, ls)
    ensures var last := ls[|ls| - 1];
            && ls[0].at <= last.at <= |a|
            && last.taken == ls[0].taken + Children(a, parent, ls[0].at, last.at)
            && forall i: nat :: ls[0].at <= i < last.at ==> !EmptyOutside(a, parent, i)
  {
    hide Named, Children, ChildAt, EmptyOutside, IsChild;
    if |ls| > 1 {
      var before := ls[..|ls| - 1];
      var s, t := before[|before| - 1], ls[|ls| - 1];
      assert NextCall(a, parent, answers, faults, ls, |ls| - 2);
      CallsBefore(a, parent, answers, faults, ls);
      CallsDeliverOnce(a, parent, answers, faults, before);
      ChildrenSplit(a, parent, ls[0].at, s.at, t.at);
      assert t.taken == ls[0].taken + (Children(a, parent, ls[0].at, s.at) + Children(a, parent, s.at, t.at));
    } else {
      assert Children(a, parent, ls[0].at, ls[0].at) == [] by { NoChildren(a, parent, ls[0].at); }
    }
  }

  lemma CallsBefore(a: seq<Header>, parent: Path, answers: nat -> int, faults: nat -> Faults, ls: seq<Listing>)
    requires Named(a) && Calls(a, parent, answers, faults, ls) && |ls| > 1
    ensures Calls(a, parent, answers, faults, ls[..|ls| - 1])
  {
    hide Named, Called;
    var before := ls[..|ls| - 1];
    forall i: nat | i + 1 < |before| ensures NextCall(a, parent, answers, faults, before, i) {
      assert NextCall(a, parent, answers, faults, ls, i);
    }
  }

  /** In no call the receiver refuses the first entry it is asked for. */
  ghost predicate TakesFirst(answers: nat -> int, ls: seq<Listing>) {
    forall i: nat :: i + 1 < |ls| ==> FirstTaken(answers, ls, i)
  }

  predicate FirstTaken(answers: nat -> int, ls: seq<Listing>, i: nat)
    requires i + 1 < |ls|
  {
    ls[i].calls < ls[i + 1].calls ==> answers(ls[i].calls) >= 0
  }

  /** No call ends with an error of the device. */
  predicate NoErrors(ls: seq<Listing>) {
    forall i :: 0 < i < |ls| ==> ls[i].error == 0
  }

  /** Such a call passes at least one header, unless it is at the end. */
  lemma CallMovesOn(a: seq<Header>, parent: Path, answers: nat -> int, faults: Faults, s: Listing, t: Listing)
    requires Named(a) && Called(a, parent, answers, faults, s, t) && !t.crashed && t.error == 0
    requires s.calls < t.calls ==> answers(s.calls) >= 0
    ensures s.at < t.at || t.at == |a|
  {
    hide Named, ChildAt, EmptyOutside, IsChild;
    if t.at == s.at { NoChildren(a, parent, s.at); }
  }

  lemma {:induction false} CallsMoveOn(a: seq<Header>, parent: Path, answers: nat -> int, faults: nat -> Faults,
                                       ls: seq<Listing>)
    requires Named(a) && Calls(a, parent, answers, faults, ls) && TakesFirst(answers, ls) && NoErrors(ls)
    requires !ls[|ls| - 1].crashed
    ensures ls[|ls| - 1].at >= |ls| - 1 || ls[|ls| - 1].at == |a|
  {
    hide Named, Children, EmptyOutside, IsChild;
    if |ls| > 1 {
      var before := ls[..|ls| - 1];
      assert NextCall(a, parent, answers, faults, ls, |ls| - 2) && FirstTaken(answers, ls, |ls| - 2);
      CallsBefore(a, parent, answers, faults, ls);
      forall i: nat | i + 1 < |before| ensures FirstTaken(answers, before, i) {
        assert FirstTaken(answers, ls, i);
      }
      CallsMoveOn(a, parent, answers, faults, before);
      CallMovesOn(a, parent, answers, faults(|ls| - 2), ls[|ls| - 2], ls[|ls| - 1]);
    }
  }

  /** While the device refuses nothing, a listing from the start ends after at most |a| + 1 calls: it
      delivers all children, once each and in archive order, if and only if the archive has no empty
      path outside the directory. */
  lemma ListingDeliversAll(a: seq<Header>, parent: Path, answers: nat -> int, faults: nat -> Faults,
                           ls: seq<Listing>)
    requires Named(a) && Calls(a, parent, answers, faults, ls) && TakesFirst(answers, ls) && NoErrors(ls)
    requires ls[0].at == 0 && ls[0].taken == [] && !ls[0].crashed
    requires |ls| > |a| + 1 || ls[|ls| - 1].crashed
    ensures var last := ls[|ls| - 1];
            && (!last.crashed <==> forall i: nat :: i < |a| ==> !EmptyOutside(a, parent, i))
            && (!last.crashed ==> last.at == |a| && last.taken == Children(a, parent, 0, |a|))
  {
    var last := ls[|ls| - 1];
    hide Named, Called, Children, EmptyOutside;
    CallsDeliverOnce(a, parent, answers, faults, ls);
    if last.crashed {
      assert NextCall(a, parent, answers, faults, ls, |ls| - 2);
      CrashedAt(a, parent, answers, faults(|ls| - 2), ls[|ls| - 2], last);
    } else {
      CallsMoveOn(a, parent, answers, faults, ls);
    }
  }

  function LastOf(p: Path): string
    requires p.comps != []
  {
    p.comps[|p.comps| - 1]
  }

  ghost predicate ChildNamed(a: seq<Header>, parent: Path, k: nat, name: string) {
    IsChild(a, parent, k) && LastOf(PathOf(a[k])) == name
  }

  ghost predicate UniquePaths(a: seq<Header>)
    requires Named(a)
  {
    forall j, k :: 0 <= j < k < |a| ==> PathOf(a[j]) != PathOf(a[k])
  }

  lemma ChildDetermined(parent: Path, p: Path, q: Path)
    requires Child(parent, p) && Child(parent, q) && LastOf(p) == LastOf(q)
    ensures p == q
  {
  }

  /** In an archive of unique paths a directory has at most one child of a name. */
  lemma NamesUnique(a: seq<Header>, parent: Path, j: nat, k: nat, name: string)
    requires Named(a) && UniquePaths(a) && ChildNamed(a, parent, j, name) && ChildNamed(a, parent, k, name)
    ensures j == k
  {
    ChildDetermined(parent, PathOf(a[j]), PathOf(a[k]));
    hide PathOf, Child;
  }

  /** Whatever is listed is a child, with the number its sector gives. */
  lemma {:induction false} ListedIsChild(a: seq<Header>, parent: Path, n: nat, d: Dirent) returns (k: nat)
    requires Named(a) && n <= |a| && d in Children(a, parent, 0, n)
    ensures k < n && ChildNamed(a, parent, k, d.name) && d == DirentOf(a, k)
    ensures d.offset == Sector(a, k) && d.ino == Sector(a, k) + 2
    ensures (d.kind == Directory <==> a[k].kind == '5') && (d.kind == Regular <==> a[k].kind in ['0', '\0'])
    ensures (d.kind == Link <==> a[k].kind in ['1', '2']) && (d.kind == CharDevice <==> a[k].kind == '3')
    ensures (d.kind == BlockDevice <==> a[k].kind == '4') && (d.kind == Fifo <==> a[k].kind == '6')
  {
    hide Child, PathOf, Named;
    if d in Children(a, parent, 0, n - 1) {
      k := ListedIsChild(a, parent, n - 1, d);
    } else {
      k := n - 1;
      assert d in ChildAt(a, parent, n - 1);
    }
  }

  /** Every child is listed. */
  lemma ChildIsListed(a: seq<Header>, parent: Path, n: nat, k: nat)
    requires Named(a) && k < n <= |a| && IsChild(a, parent, k)
    ensures PathOf(a[k]).comps != [] && DirentOf(a, k) in Children(a, parent, 0, n)
  {
    ChildHere(a, parent, k);
    hide PathOf, Named, IsChild, DirentOf, Children, ChildAt;
    EveryChildHere(a, parent, n, k);
  }

  lemma {:induction false} EveryChildHere(a: seq<Header>, parent: Path, n: nat, k: nat)
    requires Named(a) && k < n <= |a|
    ensures forall d :: d in ChildAt(a, parent, k) ==> d in Children(a, parent, 0, n)
    decreases n
  {
    hide PathOf, Named, IsChild, DirentOf, Children, ChildAt;
    ChildrenStep(a, parent, n);
    if k < n - 1 {
      EveryChildHere(a, parent, n - 1, k);
    }
  }

  lemma ChildrenStep(a: seq<Header>, parent: Path, n: nat)
    requires Named(a) && 0 < n <= |a|
    ensures Children(a, parent, 0, n) == Children(a, parent, 0, n - 1) + ChildAt(a, parent, n - 1)
  {
  }

  lemma ChildHere(a: seq<Header>, parent: Path, k: nat)
    requires Named(a) && IsChild(a, parent, k)
    ensures PathOf(a[k]).comps != [] && ChildAt(a, parent, k) == [DirentOf(a, k)]
  {
    hide PathOf, Named, Sector;
  }

  // ---- The code ------------------------------------------------------------------------------

  /** The receiver of directory entries: it may refuse (negative), take (0) or take and stop. */
  class Receiver {
    const answers: nat -> int
    var calls: nat
    var taken: seq<Dirent>

    constructor (answers: nat -> int)
      ensures this.answers == answers && calls == 0 && taken == []
    {
      this.answers, calls, taken := answers, 0, [];
    }

    method Fill(d: Dirent) returns (res: int)
      modifies this
      ensures res == answers(old(calls)) && calls == old(calls) + 1
      ensures taken == if res < 0 then old(taken) else old(taken) + [d]
    {
      res := answers(calls);
      calls := calls + 1;
      if res >= 0 { taken := taken + [d]; }
    }
  }

  method IsDirectDescendant(parent: Path, p: Path) returns (yes: bool)
    ensures yes == DirectDescendant(parent, p)
  {
    var matched := PathSubsumes(parent, p);
    return (matched + WORD) % WORD == (|p.comps| - 1 + WORD) % WORD;
  }

  method InodePath(h: Header) returns (p: Path)
    requires h.Entry? && h.name != "" && CString(h.name) && CString(h.prefix)
    ensures p == PathOf(h)
  {
    var path := FromStr(h.name);
    if h.prefix == "" { return path.View(); }
    var prefix := FromStr(h.prefix);
    ParseIsNormal(h.name);
    ParsedStrings(h.name);
    ParsedStrings(h.prefix);
    var joined := JoinPaths(prefix.View(), path.View());
    return joined.View();
  }

  lemma ParsedStrings(s: string)
    requires s != "" && CString(s)
    ensures Strings(Parse(s).value)
  {
    AddAllFrom(Root(true), Split(s[1..]));
    AddAllFrom(Root(false), Split(s));
    SplitStrings(s);
    SplitStrings(s[1..]);
  }

  lemma {:induction false} SplitStrings(s: string)
    requires CString(s)
    ensures forall c :: c in Split(s) ==> CString(c)
  {
    if s != "" {
      SplitStrings(s[..|s| - 1]);
      var r := Split(s[..|s| - 1]);
      forall c | c in Split(s) ensures CString(c) {
        assert r[|r| - 1] in r;
        assert c in r || c == "" || c == r[|r| - 1] + [s[|s| - 1]];
      }
    }
  }

  /** What the device shows at header k, and where the next one is. */
  lemma AtHeader(dev: map<nat, Header>, a: seq<Header>, k: nat)
    requires Holds(dev, a) && k <= |a|
    ensures Sector(a, k) in dev && (dev[Sector(a, k)].End? <==> k == |a|)
    ensures k < |a| ==>
              var h := dev[Sector(a, k)];
              && h == a[k] && h.Entry? && h.name != "" && CString(h.name) && CString(h.prefix)
              && Sector(a, k + 1) == Sector(a, k) + SizeToSectors(FileSize(h))
  {
  }

  lemma NoChildren(a: seq<Header>, parent: Path, j: nat)
    requires j <= |a| && Named(a)
    ensures Children(a, parent, j, j) == []
  {
  }

  /** What the test says of entry k, and what it adds to the children. */
  lemma EntrySeen(a: seq<Header>, parent: Path, j: nat, k: nat)
    requires j <= k < |a| && Named(a) && |PathOf(a[k]).comps| < WORD
    ensures var p := PathOf(a[k]);
            && (DirectDescendant(parent, p) <==> IsChild(a, parent, k) || EmptyOutside(a, parent, k))
            && (IsChild(a, parent, k) ==> p.comps != []) && (EmptyOutside(a, parent, k) ==> p.comps == [])
            && Children(a, parent, j, k + 1) == Children(a, parent, j, k) +
                 if IsChild(a, parent, k) then [Shown(p, Sector(a, k), a[k])] else []
  {
    DirectDescendantMeans(parent, PathOf(a[k]));
    hide PathOf, DirectDescendant, Prefix, Sector, Named;
  }

  /** A call under way: all it asked for was taken with the answer 0. */
  ghost predicate Going(a: seq<Header>, parent: Path, answers: nat -> int, faults: Faults, s: Listing, t: Listing)
    requires Named(a)
  {
    && !s.crashed && !t.crashed && t.error == 0 && s.at <= t.at <= |a|
    && t.taken == s.taken + Children(a, parent, s.at, t.at)
    && t.calls == s.calls + |Children(a, parent, s.at, t.at)|
    && (forall i: nat :: s.at <= i < t.at ==> !EmptyOutside(a, parent, i) && Sector(a, i) !in faults)
    && (forall n: nat :: s.calls <= n < t.calls ==> answers(n) == 0)
  }

  lemma CallStarts(a: seq<Header>, parent: Path, answers: nat -> int, faults: Faults, s: Listing)
    requires Named(a) && !s.crashed && s.error == 0 && s.at <= |a|
    ensures Going(a, parent, answers, faults, s, s) && Children(a, parent, s.at, s.at) == []
  {
  }

  /** The listing with the next header passed. */
  function Passed(t: Listing): Listing {
    t.(at := t.at + 1)
  }

  function Taken(t: Listing, d: Dirent): Listing {
    Listing(t.at + 1, t.calls + 1, t.taken + [d], t.crashed, t.error)
  }

  /** At the end, at a refused sector, at an empty path, or at another entry that is no child. */
  lemma CallEnds(a: seq<Header>, parent: Path, answers: nat -> int, faults: Faults, s: Listing, t: Listing)
    requires Named(a) && Going(a, parent, answers, faults, s, t) && (t.at < |a| ==> |PathOf(a[t.at]).comps| < WORD)
    ensures Sector(a, t.at) in faults ==>
              Called(a, parent, answers, faults, s, t.(error := faults[Sector(a, t.at)]))
    ensures Sector(a, t.at) !in faults && t.at == |a| ==> Called(a, parent, answers, faults, s, t)
    ensures Sector(a, t.at) !in faults && EmptyOutside(a, parent, t.at) ==>
              Called(a, parent, answers, faults, s, t.(crashed := true))
    ensures Sector(a, t.at) !in faults && t.at < |a| && !EmptyOutside(a, parent, t.at) && !IsChild(a, parent, t.at) ==>
              && Going(a, parent, answers, faults, s, Passed(t))
              && Children(a, parent, s.at, t.at + 1) == Children(a, parent, s.at, t.at)
  {
    hide Named, IsChild, EmptyOutside, Sector, Children, DirectDescendant, PathOf, Shown;
    if t.at < |a| { EntrySeen(a, parent, s.at, t.at); }
  }

  /** At a child, by what the receiver answers. */
  lemma CallAsks(a: seq<Header>, parent: Path, answers: nat -> int, faults: Faults, s: Listing, t: Listing)
    requires Named(a) && Going(a, parent, answers, faults, s, t) && IsChild(a, parent, t.at)
    requires t.at < |a| && Sector(a, t.at) !in faults && |PathOf(a[t.at]).comps| < WORD
    ensures PathOf(a[t.at]).comps != []
    ensures var answer, d := answers(t.calls), Shown(PathOf(a[t.at]), Sector(a, t.at), a[t.at]);
            && Children(a, parent, s.at, t.at + 1) == Children(a, parent, s.at, t.at) + [d]
            && (answer < 0 ==> Called(a, parent, answers, faults, s, t.(calls := t.calls + 1)))
            && (answer == 0 ==> Going(a, parent, answers, faults, s, Taken(t, d)))
            && (answer > 0 ==> Called(a, parent, answers, faults, s, Taken(t, d)))
  {
    hide Named, IsChild, EmptyOutside, Sector, Children, DirectDescendant, PathOf, Shown;
    EntrySeen(a, parent, s.at, t.at);
  }

  class UstarDirectory {
    const dev: map<nat, Header>
    ghost const archive: seq<Header>
    const path: Path
    var pos: nat

    constructor (dev: map<nat, Header>, ghost archive: seq<Header>, path: Path)
      ensures this.dev == dev && this.archive == archive && this.path == path && pos == 0
    {
      this.dev, this.archive, this.path, pos := dev, archive, path, 0;
    }

    /** ustar_readdir from the header at `pos`, with an error of the device or the number of entries.
        `crashed` is the null dereference for an entry that has no components. */
    method Readdir(sink: Receiver, faults: Faults, ghost j: nat) returns (res: int, crashed: bool, ghost k: nat)
      requires Named(archive) && Holds(dev, archive) && j <= |archive| && pos == Sector(archive, j)
      requires forall i :: 0 <= i < |archive| ==> |PathOf(archive[i]).comps| < WORD
      modifies this, sink
      ensures j <= k <= |archive| && pos == Sector(archive, k)
      ensures res >= 0 ==> res == |Children(archive, path, j, k)|
      ensures Called(archive, path, sink.answers, faults, Listing(j, old(sink.calls), old(sink.taken), false, 0),
                     Listing(k, sink.calls, sink.taken, crashed, if res < 0 then res else 0))
    {
      hide Holds, Named, Sector, Children, DirectDescendant, PathOf, Prefix, Parse, Join, Shown, SizeToSectors,
           IsChild, EmptyOutside, Called, Going;
      k, res, crashed := j, 0, false;
      ghost var s := Listing(j, sink.calls, sink.taken, false, 0);
      CallStarts(archive, path, sink.answers, faults, s);
      while true
        invariant j <= k <= |archive| && pos == Sector(archive, k) && res == |Children(archive, path, j, k)|
        invariant Going(archive, path, sink.answers, faults, s, Listing(k, sink.calls, sink.taken, false, 0))
        decreases |archive| - k
      {
        AtHeader(dev, archive, k);
        CallEnds(archive, path, sink.answers, faults, s, Listing(k, sink.calls, sink.taken, false, 0));
        if pos in faults {
          return faults[pos], false, k;
        }
        var h := dev[pos];
        if h.End? || h.name == "" { break; }
        EntrySeen(archive, path, j, k);
        var p := InodePath(h);
        var direct := IsDirectDescendant(path, p);
        var digits := Oct2Bin(h.size);
        if direct {
          if p.comps == [] {
            crashed := true;
            break;
          }
          CallAsks(archive, path, sink.answers, faults, s, Listing(k, sink.calls, sink.taken, false, 0));
          var answer := sink.Fill(Shown(p, pos, h));
          if answer < 0 { break; }
          pos := pos + SizeToSectors(digits);
          k := k + 1;
          res := res + 1;
          if answer != 0 { break; }
        } else {
          pos := pos + SizeToSectors(digits);
          k := k + 1;
        }
      }
    }
  }

  /** ustar_ino_lookup up to the inode: the first child of that name, or an error of the device. */
  method InoLookup(dev: map<nat, Header>, faults: Faults, ghost a: seq<Header>, parent: Path, name: string)
    returns (found: bool, sector: nat, crashed: bool, error: int, ghost k: nat)
    requires Named(a) && Holds(dev, a) && forall i :: 0 <= i < |a| ==> |PathOf(a[i]).comps| < WORD
    ensures k <= |a| && sector == Sector(a, k) && !(found && crashed)
    ensures error == if sector in faults then faults[sector] else 0
    ensures found ==> error == 0 && ChildNamed(a, parent, k, name)
    ensures forall i :: 0 <= i < k ==> !ChildNamed(a, parent, i, name)
    ensures !found && !crashed && error == 0 ==> k == |a|
    ensures crashed <==> !found && error == 0 && EmptyOutside(a, parent, k)
    ensures forall i: nat :: i < k ==> !EmptyOutside(a, parent, i) && Sector(a, i) !in faults
  {
    hide Holds, Named, Sector, DirectDescendant, PathOf, Prefix, Parse, Join;
    sector, k, error := 0, 0, 0;
    SectorZero(a);
    while true
      invariant k <= |a| && sector == Sector(a, k) && forall i :: 0 <= i < k ==> !ChildNamed(a, parent, i, name)
      invariant forall i: nat :: i < k ==> !EmptyOutside(a, parent, i) && Sector(a, i) !in faults
      decreases |a| - k
    {
      if sector in faults { return false, sector, false, faults[sector], k; }
      AtHeader(dev, a, k);
      var h := dev[sector];
      if h.End? || h.name == "" { return false, sector, false, 0, k; }
      var p := InodePath(h);
      DirectDescendantMeans(parent, p);
      var direct := IsDirectDescendant(parent, p);
      if direct && p.comps == [] { return false, sector, true, 0, k; }
      if direct && p.comps[|p.comps| - 1] == name { return true, sector, false, 0, k; }
      var digits := Oct2Bin(h.size);
      sector := sector + SizeToSectors(digits);
      k := k + 1;
    }
  }

  lemma SectorZero(a: seq<Header>)
    requires Named(a)
    ensures Sector(a, 0) == 0
  {
  }

  /** Looking up a listed name finds the inode number that was listed. */
  lemma LookupFindsListed(a: seq<Header>, parent: Path, d: Dirent, k: nat)
    requires Named(a) && UniquePaths(a) && d in Children(a, parent, 0, |a|)
    requires k <= |a| && forall i: nat :: i < k ==> !ChildNamed(a, parent, i, d.name)
    requires k == |a| || ChildNamed(a, parent, k, d.name)
    ensures k < |a| && d.ino == Sector(a, k) + FIRST_INO
  {
    var i := ListedIsChild(a, parent, |a|, d);
    hide Named, UniquePaths, ChildNamed, Sector, Children;
    if k < |a| { NamesUnique(a, parent, i, k, d.name); }
  }

  /** For instance the entry "./" is taken for a child of the directory "a". */
  lemma DotEntryMistaken()
    ensures DirectDescendant(Path(false, 0, ["a"]), Parse("./").value)
    ensures !Child(Path(false, 0, ["a"]), Parse("./").value)
  {
    hide Parse, Prefix, Add;
    DotsAlone();
    ParseAppend(".", "");
    assert "." + "/" + "" == "./";
    AddNothing(Root(false));
    assert Parse("./").value == Root(false);
    assert !Prefix(Path(false, 0, ["a"]), Root(false)) by { NotAPrefix("a"); }
    DirectDescendantMeans(Path(false, 0, ["a"]), Root(false));
  }

  lemma AddNothing(p: Path)
    ensures Add(p, "") == p
  {
  }

  lemma NotAPrefix(c: string)
    ensures !Prefix(Path(false, 0, [c]), Root(false))
  {
    assert !([c] <= []);
  }
}
