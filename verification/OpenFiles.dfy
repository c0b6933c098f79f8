/** Open files, their descriptor tables and who holds them (src/vfs/filesyscall.c, src/vfs/file.c,
    src/task/clone.c, src/task/exec.c, src/task/exit.c). */
module OpenFiles {
  import opened Holders
  import GrowArrays

  type File = nat      // 0 is the null pointer
  type Table = nat
  type Task = nat

  /** A place that stores a file pointer. */
  datatype Holder = Slot(table: Table, fd: nat) | Cwd(task: Task) | Exe(task: Task)

  // ---- Counting ------------------------------------------------------------------------------

  /** Every live resource is counted exactly, and every pointer is to a live one. */
  ghost predicate Counted<H, R>(counts: map<R, nat>, held: map<H, R>) {
    && (forall h :: h in held ==> held[h] in counts)
    && (forall r :: r in counts ==> counts[r] == Count(held, r) > 0)
  }

  function Raised<R>(counts: map<R, nat>, r: R): map<R, nat>
    requires r in counts
  {
    counts[r := counts[r] + 1]
  }

  /** A reference goes; with the last one the resource goes. */
  function Lowered<R>(counts: map<R, nat>, r: R): map<R, nat>
    requires r in counts && counts[r] > 0
  {
    if counts[r] == 1 then counts - {r} else counts[r := counts[r] - 1]
  }

  lemma CountedIn<H, R>(counts: map<R, nat>, held: map<H, R>, h: H)
    requires Counted(counts, held) && h in held
    ensures held[h] in counts && counts[held[h]] > 0
  {
  }

  lemma CountedRaise<H, R>(counts: map<R, nat>, held: map<H, R>, h: H, r: R)
    requires Counted(counts, held) && h !in held && r in counts
    ensures Counted(Raised(counts, r), held[h := r])
  {
    forall q ensures Count(held[h := r], q) == Count(held, q) + if q == r then 1 else 0 { CountAdd(held, h, r, q); }
  }

  lemma CountedNew<H, R>(counts: map<R, nat>, held: map<H, R>, h: H, r: R)
    requires Counted(counts, held) && h !in held && r !in counts
    ensures Counted(counts[r := 1], held[h := r])
  {
    CountZero(held, r);
    forall q ensures Count(held[h := r], q) == Count(held, q) + if q == r then 1 else 0 { CountAdd(held, h, r, q); }
  }

  lemma CountedLower<H, R>(counts: map<R, nat>, held: map<H, R>, h: H)
    requires Counted(counts, held) && h in held
    ensures held[h] in counts && counts[held[h]] > 0
    ensures Counted(Lowered(counts, held[h]), held - {h})
  {
    var r := held[h];
    forall q ensures Count(held - {h}, q) == Count(held, q) - if q == r then 1 else 0 { CountRemove(held, h, q); }
    if counts[r] == 1 {
      CountZero(held - {h}, r);
    }
  }

  // ---- Releases ------------------------------------------------------------------------------

  function Gone(counts: map<File, nat>, counts': map<File, nat>): set<File> {
    counts.Keys - counts'.Keys
  }

  /** Release ran once for each file that went, and for no other. */
  ghost predicate ReleasedOnce(released: seq<File>, released': seq<File>,
                               counts: map<File, nat>, counts': map<File, nat>) {
    multiset(released') == multiset(released) + multiset(Gone(counts, counts'))
  }

  /** With counts that are exact before and after, the files that went are those that had a holder
      and have none now. */
  lemma GoneWithLastHolder(counts: map<File, nat>, held: map<Holder, File>, counts': map<File, nat>,
                           held': map<Holder, File>, f: File)
    requires Counted(counts, held) && Counted(counts', held')
    ensures f in Gone(counts, counts')
       <==> (exists h :: h in held && held[h] == f) && !(exists h :: h in held' && held'[h] == f)
  {
  }

  /** Further releases, as long as no file comes back. */
  lemma ReleasesAddUp(r0: seq<File>, r1: seq<File>, r2: seq<File>, c0: map<File, nat>, c1: map<File, nat>,
                      c2: map<File, nat>)
    requires ReleasedOnce(r0, r1, c0, c1) && ReleasedOnce(r1, r2, c1, c2) && c2.Keys <= c1.Keys <= c0.Keys
    ensures ReleasedOnce(r0, r2, c0, c2)
  {
  }

  // ---- The state -----------------------------------------------------------------------------

  /** Slots lie in the arrays of live tables. */
  ghost predicate SlotsOk(held: map<Holder, File>, sizes: map<Table, nat>) {
    && (forall t, fd :: Slot(t, fd) in held ==> t in sizes && fd < sizes[t])
    && (forall t :: t in sizes ==> sizes[t] <= GrowArrays.INDEX_LIMIT)
  }

  /** A pointer stored at descriptor fd of an array of this length gets a place. */
  predicate HasPlace(size: nat, fd: nat) {
    GrowArrays.Stores(size, fd, 1)
  }

  /** Descriptors from n on lost. */
  function CutSlots(held: map<Holder, File>, t: Table, n: nat): map<Holder, File> {
    map h | h in held && !(h.Slot? && h.table == t && h.fd >= n) :: held[h]
  }

  function CutFlags(cloexec: set<(Table, nat)>, t: Table, n: nat): set<(Table, nat)> {
    set x | x in cloexec && !(x.0 == t && x.1 >= n)
  }

  /** What is left of descriptors and marks: those of other tables, and those that have memory. */
  lemma CutsExactly(held: map<Holder, File>, cloexec: set<(Table, nat)>, t: Table, n: nat, u: Table, fd: nat)
    ensures Slot(u, fd) in CutSlots(held, t, n) <==> Slot(u, fd) in held && (u == t ==> fd < n)
    ensures (u, fd) in CutFlags(cloexec, t, n) <==> (u, fd) in cloexec && (u == t ==> fd < n)
    ensures forall h :: h in CutSlots(held, t, n) ==> CutSlots(held, t, n)[h] == held[h]
    ensures Cwd(u) in CutSlots(held, t, n) <==> Cwd(u) in held
    ensures Exe(u) in CutSlots(held, t, n) <==> Exe(u) in held
  {
  }

  /** A use counted for a pointer that was not stored. */
  lemma LostUncounted(counts: map<File, nat>, held: map<Holder, File>, t: Table, n: nat, file: File)
    requires Counted(counts, held) && file in counts
    ensures !Counted(Raised(counts, file), CutSlots(held, t, n))
  {
    HoldersLess(held, CutSlots(held, t, n), file);
  }

  lemma NewUncounted(counts: map<File, nat>, held: map<Holder, File>, t: Table, n: nat, file: File)
    requires Counted(counts, held) && file !in counts
    ensures !Counted(counts[file := 1], CutSlots(held, t, n))
  {
    CountZero(held, file);
    HoldersLess(held, CutSlots(held, t, n), file);
  }

  lemma HoldersLess(held: map<Holder, File>, fewer: map<Holder, File>, file: File)
    requires forall h :: h in fewer ==> h in held && held[h] == fewer[h]
    ensures Count(fewer, file) <= Count(held, file)
  {
    assert Of(fewer, file) <= Of(held, file);
    assert Of(held, file) == Of(fewer, file) + (Of(held, file) - Of(fewer, file));
  }

  ghost predicate FlagsOk(held: map<Holder, File>, cloexec: set<(Table, nat)>) {
    forall t, fd :: (t, fd) in cloexec ==> Slot(t, fd) in held
  }

  /** dup2 of the only reference onto its own descriptor. */
  predicate LastOntoItself(counts: map<File, nat>, held: map<Holder, File>, t: Table, oldfd: nat, newfd: nat) {
    && oldfd == newfd && Slot(t, oldfd) in held && held[Slot(t, oldfd)] in counts
    && counts[held[Slot(t, oldfd)]] == 1
  }

  lemma NoLastReference(counts: map<File, nat>, held: map<Holder, File>, t: Table, oldfd: nat, newfd: nat)
    requires Slot(t, oldfd) !in held
    ensures !LastOntoItself(counts, held, t, oldfd, newfd)
  {
  }

  lemma DupOntoFree(counts: map<File, nat>, held: map<Holder, File>, t: Table, oldfd: nat, newfd: nat)
    requires Counted(counts, held) && Slot(t, oldfd) in held && Slot(t, newfd) !in held
    ensures held[Slot(t, oldfd)] in counts
    ensures Counted(Raised(counts, held[Slot(t, oldfd)]), held[Slot(t, newfd) := held[Slot(t, oldfd)]])
  {
    CountedRaise(counts, held, Slot(t, newfd), held[Slot(t, oldfd)]);
  }

  lemma DupOntoOther(counts: map<File, nat>, held: map<Holder, File>, t: Table, oldfd: nat, newfd: nat)
    requires Counted(counts, held) && Slot(t, oldfd) in held && Slot(t, newfd) in held && oldfd != newfd
    ensures var file, prior := held[Slot(t, oldfd)], held[Slot(t, newfd)];
            && prior in counts && counts[prior] > 0 && file in Lowered(counts, prior)
            && Counted(Raised(Lowered(counts, prior), file), held[Slot(t, newfd) := file])
  {
    var file, prior := held[Slot(t, oldfd)], held[Slot(t, newfd)];
    var rest := held - {Slot(t, newfd)};
    CountedLower(counts, held, Slot(t, newfd));
    assert Slot(t, oldfd) in rest && rest[Slot(t, oldfd)] == file;
    CountedRaise(Lowered(counts, prior), rest, Slot(t, newfd), file);
    assert rest[Slot(t, newfd) := file] == held[Slot(t, newfd) := file];
  }

  lemma DupOntoItself(counts: map<File, nat>, held: map<Holder, File>, t: Table, fd: nat)
    requires Counted(counts, held) && Slot(t, fd) in held
    ensures var file := held[Slot(t, fd)]; var held' := held[Slot(t, fd) := file];
            && held' == held && file in counts && counts[file] > 0
            && (file in Lowered(counts, file) <==> counts[file] != 1)
            && (counts[file] == 1 ==> !Counted(Lowered(counts, file), held'))
            && (counts[file] != 1 ==> Raised(Lowered(counts, file), file) == counts)
  {
  }

  /** The counts after dup2 closed what was at newfd, and after it counted the new reference. */
  function DupClosed(counts: map<File, nat>, held: map<Holder, File>, t: Table, newfd: nat): map<File, nat>
    requires Slot(t, newfd) in held ==> held[Slot(t, newfd)] in counts && counts[held[Slot(t, newfd)]] > 0
  {
    if Slot(t, newfd) in held then Lowered(counts, held[Slot(t, newfd)]) else counts
  }

  function Noted(counts: map<File, nat>, file: File): map<File, nat> {
    if file in counts then Raised(counts, file) else counts
  }

  lemma DupKeeps(counts: map<File, nat>, held: map<Holder, File>, t: Table, oldfd: nat, newfd: nat)
    requires Counted(counts, held) && Slot(t, oldfd) in held
    ensures Slot(t, newfd) in held ==> held[Slot(t, newfd)] in counts && counts[held[Slot(t, newfd)]] > 0
    ensures var file := held[Slot(t, oldfd)]; var last := LastOntoItself(counts, held, t, oldfd, newfd);
            && (file in DupClosed(counts, held, t, newfd) <==> !last)
            && (Counted(Noted(DupClosed(counts, held, t, newfd), file), held[Slot(t, newfd) := file]) <==> !last)
  {
    hide Counted;
    if Slot(t, newfd) !in held {
      DupOntoFree(counts, held, t, oldfd, newfd);
    } else if oldfd != newfd {
      DupOntoOther(counts, held, t, oldfd, newfd);
    } else {
      DupOntoItself(counts, held, t, oldfd);
    }
  }

  /** dup2 at descriptors with and without a place. */
  lemma DupPlace(counts: map<File, nat>, held: map<Holder, File>, sizes: map<Table, nat>, t: Table, oldfd: nat,
                 newfd: nat)
    requires Counted(counts, held) && SlotsOk(held, sizes) && Slot(t, oldfd) in held
    ensures held[Slot(t, oldfd)] in counts && t in sizes
    ensures !HasPlace(sizes[t], newfd) ==>
              && Slot(t, newfd) !in held && !LastOntoItself(counts, held, t, oldfd, newfd)
              && !Counted(Raised(counts, held[Slot(t, oldfd)]), CutSlots(held, t, GrowArrays.Room(newfd)))
  {
    LostUncounted(counts, held, t, GrowArrays.Room(newfd), held[Slot(t, oldfd)]);
    hide GrowArrays.Room;
  }

  /** The close-on-exec marks after a descriptor was stored: their array, no longer than the other one,
      grows or is cut in the same way when there is a mark to store. */
  function Marked(cloexec: set<(Table, nat)>, t: Table, fd: nat, mark: bool, place: bool): set<(Table, nat)> {
    if !place then (if mark then CutFlags(cloexec, t, GrowArrays.Room(fd)) else cloexec)
    else if mark then cloexec + {(t, fd)}
    else cloexec - {(t, fd)}
  }

  /** Where dup2 ends. */
  lemma DupEnds(counts: map<File, nat>, held: map<Holder, File>, cloexec: set<(Table, nat)>, sizes: map<Table, nat>,
                t: Table, oldfd: nat, newfd: nat, held': map<Holder, File>, sizes': map<Table, nat>)
    requires Counted(counts, held) && SlotsOk(held, sizes) && FlagsOk(held, cloexec) && Slot(t, oldfd) in held
    requires t in sizes
    requires Slot(t, newfd) in held ==> held[Slot(t, newfd)] in counts && counts[held[Slot(t, newfd)]] > 0
    requires if HasPlace(sizes[t], newfd) then
               held' == held[Slot(t, newfd) := held[Slot(t, oldfd)]] && SlotsOk(held', sizes')
             else
               held' == CutSlots(held, t, GrowArrays.Room(newfd))
    ensures var place, mark := HasPlace(sizes[t], newfd), (t, oldfd) in cloexec;
            var counts', cloexec' := Noted(DupClosed(counts, held, t, newfd), held[Slot(t, oldfd)]),
                                     Marked(cloexec, t, newfd, mark, place);
            && (Counted(counts', held') && SlotsOk(held', sizes') && FlagsOk(held', cloexec') <==>
                  place && !LastOntoItself(counts, held, t, oldfd, newfd))
            && (place ==> cloexec' == (cloexec - {(t, newfd)}) + if mark then {(t, newfd)} else {})
            && (!place ==> held[Slot(t, oldfd)] in counts && counts' == Raised(counts, held[Slot(t, oldfd)])
                           && cloexec' == if mark then CutFlags(cloexec, t, GrowArrays.Room(newfd)) else cloexec)
  {
    DupKeeps(counts, held, t, oldfd, newfd);
    DupPlace(counts, held, sizes, t, oldfd, newfd);
    hide Counted, CutSlots, HasPlace, LastOntoItself, SlotsOk, Raised, Lowered, GrowArrays.Room;
  }

  lemma NotedKeys(counts: map<File, nat>, file: File)
    ensures Noted(counts, file).Keys == counts.Keys
  {
  }

  lemma ChdirKeeps(counts: map<File, nat>, held: map<Holder, File>, h: Holder, file: File)
    requires Counted(counts, held) && h in held && file !in counts
    ensures held[h] in counts && counts[held[h]] > 0 && held[h] != file
    ensures Counted(Lowered(counts[file := 1], held[h]), held[h := file])
  {
    var rest := held - {h};
    CountedLower(counts, held, h);
    CountedNew(Lowered(counts, held[h]), rest, h, file);
    assert rest[h := file] == held[h := file];
    assert Lowered(counts, held[h])[file := 1] == Lowered(counts[file := 1], held[h]);
  }

  lemma LoweredKeys(counts: map<File, nat>, file: File)
    requires file in counts && counts[file] > 0
    ensures Lowered(counts, file).Keys <= counts.Keys
  {
  }

  lemma CountedIs<H, R>(counts: map<R, nat>, held: map<H, R>, h: H)
    requires Counted(counts, held) && h in held
    ensures held[h] in counts && counts[held[h]] == Count(held, held[h])
  {
  }

  function WithoutSlots(held: map<Holder, File>, t: Table, n: nat): map<Holder, File> {
    map h | h in held && !(h.Slot? && h.table == t && h.fd < n) :: held[h]
  }

  function WithoutTable(held: map<Holder, File>, t: Table): map<Holder, File> {
    map h | h in held && !(h.Slot? && h.table == t) :: held[h]
  }

  function WithoutTask(held: map<Holder, File>, task: Task): map<Holder, File> {
    held - {Cwd(task), Exe(task)}
  }

  function WithoutFlags(cloexec: set<(Table, nat)>, t: Table): set<(Table, nat)> {
    set x | x in cloexec && x.0 != t
  }

  lemma NextSlot(held: map<Holder, File>, t: Table, n: nat)
    ensures WithoutSlots(held, t, n + 1) == WithoutSlots(held, t, n) - {Slot(t, n)}
    ensures Slot(t, n) !in WithoutSlots(held, t, n) ==> WithoutSlots(held, t, n + 1) == WithoutSlots(held, t, n)
  {
  }

  lemma AllSlots(held: map<Holder, File>, sizes: map<Table, nat>, t: Table)
    requires SlotsOk(held, sizes) && t in sizes
    ensures WithoutSlots(held, t, sizes[t]) == WithoutTable(held, t)
  {
  }

  lemma NoneReleased(counts: map<File, nat>, released: seq<File>)
    ensures ReleasedOnce(released, released, counts, counts)
  {
  }

  datatype Option<T> = None | Some(value: T)

  ghost predicate TableCopied(held: map<Holder, File>, held': map<Holder, File>, t: Table, copy: Table) {
    && (forall h: Holder :: !(h.Slot? && h.table == copy) ==>
          (h in held' <==> h in held) && (h in held ==> held'[h] == held[h]))
    && (forall fd: nat :: SlotCopied(held, held', t, copy, fd))
  }

  ghost predicate SlotCopied(held: map<Holder, File>, held': map<Holder, File>, t: Table, copy: Table, fd: nat) {
    && (Slot(copy, fd) in held' <==> Slot(t, fd) in held)
    && (Slot(t, fd) in held ==> held'[Slot(copy, fd)] == held[Slot(t, fd)])
  }

  /** The child of a clone has the parent's cwd and exe, and in a copied table the same files at the
      same descriptors; nothing else changed. */
  ghost predicate HandedOn(held: map<Holder, File>, held': map<Holder, File>, parent: Task, child: Task,
                           copied: Option<Table>, copy: Table) {
    && (Cwd(child) in held' <==> Cwd(parent) in held)
    && (Cwd(parent) in held ==> held'[Cwd(child)] == held[Cwd(parent)])
    && (Exe(child) in held' <==> Exe(parent) in held)
    && (Exe(parent) in held ==> held'[Exe(child)] == held[Exe(parent)])
    && (forall h :: h in held ==> h in held' && held'[h] == held[h])
    && (forall h :: h in held' && h !in held ==>
          h == Cwd(child) || h == Exe(child) || (copied.Some? && h.Slot? && h.table == copy))
    && (copied.Some? ==> forall fd: nat :: SlotCopied(held, held', copied.value, copy, fd))
  }

  function WithOwn(held: map<Holder, File>, parent: Task, child: Task): map<Holder, File> {
    var h1 := if Cwd(parent) in held then held[Cwd(child) := held[Cwd(parent)]] else held;
    if Exe(parent) in h1 then h1[Exe(child) := h1[Exe(parent)]] else h1
  }

  lemma OwnHandedOn(held: map<Holder, File>, parent: Task, child: Task, copy: Table)
    requires parent != child && Cwd(child) !in held && Exe(child) !in held
    requires forall fd: nat :: Slot(copy, fd) !in held
    ensures HandedOn(held, WithOwn(held, parent, child), parent, child, None, copy)
    ensures forall held', t :: TableCopied(WithOwn(held, parent, child), held', t, copy) ==>
              HandedOn(held, held', parent, child, Some(t), copy)
  {
    forall held', t | TableCopied(WithOwn(held, parent, child), held', t, copy)
      ensures HandedOn(held, held', parent, child, Some(t), copy)
    {
      OwnAndTable(held, held', parent, child, t, copy);
    }
  }

  lemma OwnAndTable(held: map<Holder, File>, held': map<Holder, File>, parent: Task, child: Task, t: Table,
                    copy: Table)
    requires parent != child && Cwd(child) !in held && Exe(child) !in held
    requires forall fd: nat :: Slot(copy, fd) !in held
    requires TableCopied(WithOwn(held, parent, child), held', t, copy)
    ensures HandedOn(held, held', parent, child, Some(t), copy)
  {
    var own := WithOwn(held, parent, child);
    assert forall h :: h in held ==> h in own && own[h] == held[h];
    forall fd: nat ensures SlotCopied(held, held', t, copy, fd) {
      assert SlotCopied(own, held', t, copy, fd);
    }
  }

  /** The descriptors of the copy are those of the parent. */
  lemma SlotsHandedOn(held: map<Holder, File>, held': map<Holder, File>, parent: Task, child: Task, t: Table,
                      copy: Table)
    requires TableCopied(WithOwn(held, parent, child), held', t, copy)
    ensures forall fd: nat :: Slot(copy, fd) in held' <==> Slot(t, fd) in held
    ensures forall fd: nat :: Slot(copy, fd) in held' ==> held'[Slot(copy, fd)] == held[Slot(t, fd)]
  {
    forall fd: nat
      ensures Slot(copy, fd) in held' <==> Slot(t, fd) in held
      ensures Slot(copy, fd) in held' ==> held'[Slot(copy, fd)] == held[Slot(t, fd)]
    {
      assert SlotCopied(WithOwn(held, parent, child), held', t, copy, fd);
    }
  }

  ghost predicate CopiedUpTo(held: map<Holder, File>, held': map<Holder, File>, t: Table, copy: Table, n: nat) {
    && (forall h: Holder :: !(h.Slot? && h.table == copy) ==>
          (h in held' <==> h in held) && (h in held ==> held'[h] == held[h]))
    && (forall fd: nat :: if fd < n then SlotCopied(held, held', t, copy, fd) else Slot(copy, fd) !in held')
  }

  lemma CopiedNone(held: map<Holder, File>, t: Table, copy: Table)
    requires forall fd: nat :: Slot(copy, fd) !in held
    ensures CopiedUpTo(held, held, t, copy, 0)
  {
  }

  lemma CopiedNext(held: map<Holder, File>, held': map<Holder, File>, t: Table, copy: Table, n: nat)
    requires CopiedUpTo(held, held', t, copy, n) && t != copy
    ensures Slot(copy, n) !in held' && (Slot(t, n) in held' <==> Slot(t, n) in held)
    ensures Slot(t, n) in held' ==> CopiedUpTo(held, held'[Slot(copy, n) := held'[Slot(t, n)]], t, copy, n + 1)
    ensures Slot(t, n) !in held' ==> CopiedUpTo(held, held', t, copy, n + 1)
  {
  }

  lemma CopiedAll(held: map<Holder, File>, held': map<Holder, File>, sizes: map<Table, nat>, t: Table, copy: Table)
    requires SlotsOk(held, sizes) && t in sizes && CopiedUpTo(held, held', t, copy, sizes[t])
    ensures TableCopied(held, held', t, copy)
  {
  }

  /** The close-on-exec marks once a copy of the table has those of the original. */
  function FlagsCopied(cloexec: set<(Table, nat)>, t: Table, copy: Table): set<(Table, nat)> {
    cloexec + set x | x in cloexec && x.0 == t :: (copy, x.1)
  }

  /** The copy has exactly the marks of the original, and nobody else's have changed. */
  lemma FlagsCopiedAre(cloexec: set<(Table, nat)>, t: Table, copy: Table, u: Table, fd: nat)
    ensures (u, fd) in FlagsCopied(cloexec, t, copy) <==> (u, fd) in cloexec || (u == copy && (t, fd) in cloexec)
  {
    if u == copy && (t, fd) in cloexec { assert (t, fd).0 == t && (copy, (t, fd).1) == (u, fd); }
  }

  /** The marks below n are copied. */
  function FlagsCopiedUpTo(cloexec: set<(Table, nat)>, t: Table, copy: Table, n: nat): set<(Table, nat)> {
    cloexec + set x | x in cloexec && x.0 == t && x.1 < n :: (copy, x.1)
  }

  lemma NextFlagCopied(cloexec: set<(Table, nat)>, t: Table, copy: Table, n: nat)
    requires t != copy
    ensures FlagsCopiedUpTo(cloexec, t, copy, n + 1)
         == FlagsCopiedUpTo(cloexec, t, copy, n) + if (t, n) in cloexec then {(copy, n)} else {}
    ensures (t, n) in FlagsCopiedUpTo(cloexec, t, copy, n) <==> (t, n) in cloexec
  {
    if (t, n) in cloexec { assert (t, n).0 == t && (t, n).1 < n + 1 && (copy, (t, n).1) == (copy, n); }
    forall x | x in cloexec && x.0 == t && x.1 < n + 1
      ensures (copy, x.1) in FlagsCopiedUpTo(cloexec, t, copy, n) || ((t, n) in cloexec && x.1 == n)
    {
      assert x == (t, x.1);
    }
    forall x | x in cloexec && x.0 == t && x.1 < n ensures (copy, x.1) in FlagsCopiedUpTo(cloexec, t, copy, n + 1) {
      assert x.1 < n + 1;
    }
  }

  lemma AllFlagsCopied(cloexec: set<(Table, nat)>, held: map<Holder, File>, sizes: map<Table, nat>, t: Table,
                       copy: Table)
    requires FlagsOk(held, cloexec) && SlotsOk(held, sizes) && t in sizes
    ensures FlagsCopiedUpTo(cloexec, t, copy, sizes[t]) == FlagsCopied(cloexec, t, copy)
    ensures FlagsCopiedUpTo(cloexec, t, copy, 0) == cloexec
  {
    forall x | x in cloexec && x.0 == t ensures x.1 < sizes[t] { assert x == (t, x.1) && Slot(t, x.1) in held; }
  }

  /** An exec in a cloned task with a table of its own leaves there exactly the descriptors of the parent
      that are not marked, each with its file, and leaves the parent's table alone. */
  lemma CloneThenExec(held: map<Holder, File>, held': map<Holder, File>, cloexec: set<(Table, nat)>, t: Table,
                      copy: Table, fd: nat)
    requires TableCopied(held, held', t, copy) && FlagsOk(held, cloexec) && t != copy
    requires forall k: nat :: Slot(copy, k) !in held
    ensures var after := WithoutMarked(held', FlagsCopied(cloexec, t, copy), copy);
            && (Slot(copy, fd) in after <==> Slot(t, fd) in held && (t, fd) !in cloexec)
            && (Slot(copy, fd) in after ==> after[Slot(copy, fd)] == held[Slot(t, fd)])
            && (Slot(t, fd) in after <==> Slot(t, fd) in held)
            && (Slot(t, fd) in held ==> after[Slot(t, fd)] == held[Slot(t, fd)])
  {
    FlagsCopiedAre(cloexec, t, copy, copy, fd);
    assert SlotCopied(held, held', t, copy, fd);
  }

  lemma CopiedFlags(held: map<Holder, File>, held': map<Holder, File>, t: Table, copy: Table,
                    cloexec: set<(Table, nat)>)
    requires TableCopied(held, held', t, copy) && FlagsOk(held, cloexec) && forall fd: nat :: Slot(copy, fd) !in held
    ensures FlagsOk(held', FlagsCopied(cloexec, t, copy))
  {
    forall u, fd | (u, fd) in cloexec + set x | x in cloexec && x.0 == t :: (copy, x.1) ensures Slot(u, fd) in held' {
      assert SlotCopied(held, held', t, copy, fd);
    }
  }

  function WithoutMarked(held: map<Holder, File>, cloexec: set<(Table, nat)>, t: Table): map<Holder, File> {
    map h | h in held && !(h.Slot? && h.table == t && (t, h.fd) in cloexec) :: held[h]
  }

  function WithoutMarkedUpTo(held: map<Holder, File>, cloexec: set<(Table, nat)>, t: Table, n: nat): map<Holder, File> {
    map h | h in held && !(h.Slot? && h.table == t && h.fd < n && (t, h.fd) in cloexec) :: held[h]
  }

  lemma NextMarked(held: map<Holder, File>, cloexec: set<(Table, nat)>, t: Table, n: nat)
    ensures WithoutMarkedUpTo(held, cloexec, t, n + 1)
         == if (t, n) in cloexec then WithoutMarkedUpTo(held, cloexec, t, n) - {Slot(t, n)}
            else WithoutMarkedUpTo(held, cloexec, t, n)
    ensures Slot(t, n) !in WithoutMarkedUpTo(held, cloexec, t, n) ==>
              WithoutMarkedUpTo(held, cloexec, t, n + 1) == WithoutMarkedUpTo(held, cloexec, t, n)
  {
  }

  lemma AllMarked(held: map<Holder, File>, cloexec: set<(Table, nat)>, sizes: map<Table, nat>, t: Table)
    requires SlotsOk(held, sizes) && t in sizes
    ensures WithoutMarkedUpTo(held, cloexec, t, sizes[t]) == WithoutMarked(held, cloexec, t)
  {
  }

  lemma FlagsInside(held: map<Holder, File>, cloexec: set<(Table, nat)>, sizes: map<Table, nat>, t: Table)
    requires SlotsOk(held, sizes) && FlagsOk(held, cloexec) && t in sizes
    ensures (set x | x in cloexec && !(x.0 == t && x.1 < sizes[t])) == WithoutFlags(cloexec, t)
  {
  }

  class Files {
    var counts: map<File, nat>          // file->refcount of the files not yet freed
    var held: map<Holder, File>         // all descriptor slots, cwd and exe pointers
    var cloexec: set<(Table, nat)>
    var sizes: map<Table, nat>          // the lengths of the descriptor arrays
    var tables: map<Task, Table>        // task->files
    var tableCounts: map<Table, nat>
    var released: seq<File>             // calls of the release operation

    ghost predicate Valid()
      reads this
    {
      && Counted(counts, held) && Counted(tableCounts, tables)
      && SlotsOk(held, sizes) && FlagsOk(held, cloexec) && sizes.Keys == tableCounts.Keys
    }

    constructor ()
      ensures Valid() && held == map[] && released == []
    {
      counts, held, cloexec, sizes, tables, tableCounts, released := map[], map[], {}, map[], map[], map[], [];
    }

    /** filp_close. */
    method FilpClose(file: File)
      requires file in counts && counts[file] > 0
      modifies this`counts, this`released
      ensures counts == Lowered(old(counts), file)
      ensures released == old(released) + if old(counts)[file] == 1 then [file] else []
      ensures ReleasedOnce(old(released), released, old(counts), counts)
    {
      if counts[file] - 1 != 0 {
        counts := counts[file := counts[file] - 1];
        assert Gone(old(counts), counts) == {};
        return;
      }
      released := released + [file];
      counts := counts - {file};
      assert Gone(old(counts), counts) == {file};
    }

    /** array_set of a non-null pointer: the array grows when it must.  Where that goes wrong, the
        descriptors without memory are lost and the new one is not stored. */
    method SetSlot(t: Table, fd: nat, file: File) returns (overrun: bool)
      requires t in sizes && SlotsOk(held, sizes) && fd < GrowArrays.WORD
      modifies this`held, this`sizes
      ensures HasPlace(old(sizes)[t], fd) ==>
                held == old(held)[Slot(t, fd) := file] && SlotsOk(held, sizes) && !overrun
      ensures !HasPlace(old(sizes)[t], fd) ==>
                && held == CutSlots(old(held), t, GrowArrays.Room(fd))
                && (overrun <==> fd < 0x8000_0000 || old(sizes)[t] > 1)
      ensures sizes.Keys == old(sizes).Keys
    {
      GrowArrays.RoomExactly(fd);
      hide GrowArrays.Room, GrowArrays.NewSize;
      if fd < sizes[t] {
        held := held[Slot(t, fd) := file];
        return false;
      }
      var room := GrowArrays.Room(fd);
      overrun := room < sizes[t] || room < GrowArrays.NewSize(fd);
      held := CutSlots(held, t, room);
      sizes := sizes[t := GrowArrays.NewSize(fd)];
      if fd < room {
        assert held == old(held);
        held := held[Slot(t, fd) := file];
      }
    }

    /** The loop over descriptors until one is free. */
    method FirstFree(t: Table, start: nat) returns (fd: nat)
      requires t in sizes && SlotsOk(held, sizes)
      ensures start <= fd && Slot(t, fd) !in held && (fd == start || fd <= sizes[t])
      ensures forall j :: start <= j < fd ==> Slot(t, j) in held
    {
      fd := start;
      while Slot(t, fd) in held
        invariant start <= fd && (fd == start || fd <= sizes[t])
        invariant forall j :: start <= j < fd ==> Slot(t, j) in held
        decreases sizes[t] - fd
      {
        fd := fd + 1;
      }
    }

    /** do_sys_openat behind filp_openat, whose new file is `file` (0 when it failed).  A table whose
        descriptors are all taken up to the limit of the array has no place for another one. */
    method Openat(task: Task, file: File, closeOnExec: bool) returns (fd: int, overrun: bool)
      requires Valid() && task in tables && file !in counts
      modifies this`counts, this`held, this`cloexec, this`sizes
      ensures file == 0 ==> fd == -1 && !overrun && unchanged(this)
      ensures file != 0 ==>
                && 0 <= fd <= GrowArrays.INDEX_LIMIT && Slot(tables[task], fd) !in old(held)
                && (forall j :: 0 <= j < fd ==> Slot(tables[task], j) in old(held))
                && counts == old(counts)[file := 1]
      ensures Valid() <==> file == 0 || fd < GrowArrays.INDEX_LIMIT
      ensures overrun <==> file != 0 && fd == GrowArrays.INDEX_LIMIT
      ensures file != 0 && fd < GrowArrays.INDEX_LIMIT ==>
                && held == old(held)[Slot(tables[task], fd) := file]
                && cloexec == old(cloexec) + if closeOnExec then {(tables[task], fd)} else {}
    {
      hide Counted, GrowArrays.Room;
      if file == 0 { return -1, false; }
      var t := tables[task];
      CountedIn(tableCounts, tables, task);
      fd := FirstFree(t, 0);
      assert fd <= GrowArrays.INDEX_LIMIT;
      CountedNew(counts, held, Slot(t, fd), file);
      NewUncounted(counts, held, t, GrowArrays.Room(fd), file);
      hide CutSlots;
      counts := counts[file := 1];
      overrun := SetSlot(t, fd, file);
      cloexec := if closeOnExec then cloexec + {(t, fd as nat)} else cloexec - {(t, fd as nat)};
    }

    method CloseFd(task: Task, fd: nat) returns (res: int)
      requires Valid() && task in tables
      modifies this`counts, this`held, this`cloexec, this`released
      ensures Valid()
      ensures Slot(tables[task], fd) !in old(held) ==> res == -9 && unchanged(this)
      ensures Slot(tables[task], fd) in old(held) ==>
                && res == 0 && held == old(held) - {Slot(tables[task], fd)}
                && cloexec == old(cloexec) - {(tables[task], fd)}
      ensures ReleasedOnce(old(released), released, old(counts), counts)
    {
      var slot := Slot(tables[task], fd);
      if slot !in held {
        assert Gone(old(counts), counts) == {};
        return -9;
      }
      CountedLower(counts, held, slot);
      FilpClose(held[slot]);
      held := held - {slot};
      cloexec := cloexec - {(tables[task], fd)};
      return 0;
    }

    /** dup2.  A descriptor duplicated onto itself is closed first: when that was the last reference,
        the file is freed and the slot keeps a pointer to freed memory.  The new descriptor is taken as
        an unsigned number; one without a place in the array is counted and not stored. */
    method Dup2(task: Task, oldfd: nat, newfd: nat) returns (res: int, useAfterFree: bool, overrun: bool)
      requires Valid() && task in tables && newfd < GrowArrays.WORD
      modifies this`counts, this`held, this`cloexec, this`sizes, this`released
      ensures Slot(tables[task], oldfd) !in old(held) ==> res == -9 && !overrun && unchanged(this)
      ensures tables[task] in old(sizes)
      ensures Slot(tables[task], oldfd) in old(held) && HasPlace(old(sizes)[tables[task]], newfd) ==>
                && res == newfd && !overrun
                && held == old(held)[Slot(tables[task], newfd) := old(held)[Slot(tables[task], oldfd)]]
                && cloexec == (old(cloexec) - {(tables[task], newfd)}) +
                              (if (tables[task], oldfd) in old(cloexec) then {(tables[task], newfd)} else {})
      ensures Slot(tables[task], oldfd) in old(held) && !HasPlace(old(sizes)[tables[task]], newfd) ==>
                && res == newfd && old(held)[Slot(tables[task], oldfd)] in old(counts)
                && held == CutSlots(old(held), tables[task], GrowArrays.Room(newfd))
                && counts == Raised(old(counts), old(held)[Slot(tables[task], oldfd)])
                && cloexec == (if (tables[task], oldfd) in old(cloexec)
                               then CutFlags(old(cloexec), tables[task], GrowArrays.Room(newfd)) else old(cloexec))
                && (overrun <==> newfd < 0x8000_0000 || old(sizes)[tables[task]] > 1)
      ensures ReleasedOnce(old(released), released, old(counts), counts)
      ensures Valid() <==>
        || Slot(tables[task], oldfd) !in old(held)
        || (HasPlace(old(sizes)[tables[task]], newfd)
            && !LastOntoItself(old(counts), old(held), tables[task], oldfd, newfd))
      ensures useAfterFree <==> LastOntoItself(old(counts), old(held), tables[task], oldfd, newfd)
    {
      hide Counted, Raised, Lowered, Noted, Marked, CutSlots, SlotsOk, FlagsOk, HasPlace, LastOntoItself,
           GrowArrays.Room;
      var t := tables[task];
      CountedIn(tableCounts, tables, task);
      if Slot(t, oldfd) !in held {
        NoLastReference(counts, held, t, oldfd, newfd);
        NoneReleased(counts, released);
        return -9, false, false;
      }
      var file := held[Slot(t, oldfd)];
      DupKeeps(counts, held, t, oldfd, newfd);
      NoneReleased(counts, released);
      if Slot(t, newfd) in held {
        FilpClose(held[Slot(t, newfd)]);
      }
      ghost var closed := counts;
      var place := HasPlace(sizes[t], newfd);
      overrun := SetSlot(t, newfd, file);
      useAfterFree := file !in counts;
      counts := Noted(counts, file);
      NotedKeys(closed, file);
      assert Gone(old(counts), counts) == Gone(old(counts), closed);
      cloexec := Marked(cloexec, t, newfd, (t, oldfd) in cloexec, place);
      DupEnds(old(counts), old(held), old(cloexec), old(sizes), t, oldfd, newfd, held, sizes);
      return newfd, useAfterFree, overrun;
    }

    /** fcntl with F_DUPFD or F_DUPFD_CLOEXEC. */
    method DupFd(task: Task, fd: nat, arg: nat, setCloexec: bool) returns (res: int, overrun: bool)
      requires Valid() && task in tables && arg < GrowArrays.WORD
      modifies this`counts, this`held, this`cloexec, this`sizes
      ensures Slot(tables[task], fd) !in old(held) ==> res == -9 && !overrun && unchanged(this)
      ensures tables[task] in old(sizes)
      ensures Slot(tables[task], fd) in old(held) ==>
                && arg <= res < GrowArrays.WORD && Slot(tables[task], res) !in old(held)
                && (forall j :: arg <= j < res ==> Slot(tables[task], j) in old(held))
                && old(held)[Slot(tables[task], fd)] in old(counts)
                && counts == Raised(old(counts), old(held)[Slot(tables[task], fd)])
      ensures Valid() <==> Slot(tables[task], fd) !in old(held) || HasPlace(old(sizes)[tables[task]], res)
      ensures Slot(tables[task], fd) in old(held) && HasPlace(old(sizes)[tables[task]], res) ==>
                && !overrun
                && held == old(held)[Slot(tables[task], res) := old(held)[Slot(tables[task], fd)]]
                && cloexec == old(cloexec) +
                     if setCloexec || (tables[task], fd) in old(cloexec) then {(tables[task], res)} else {}
      ensures Slot(tables[task], fd) in old(held) && !HasPlace(old(sizes)[tables[task]], res) ==>
                && held == CutSlots(old(held), tables[task], GrowArrays.Room(res))
                && cloexec == (if setCloexec || (tables[task], fd) in old(cloexec)
                               then CutFlags(old(cloexec), tables[task], GrowArrays.Room(res)) else old(cloexec))
                && (overrun <==> res < 0x8000_0000 || old(sizes)[tables[task]] > 1)
    {
      hide Counted, Raised, GrowArrays.Room, GrowArrays.Stores;
      var t := tables[task];
      CountedIn(tableCounts, tables, task);
      if Slot(t, fd) !in held { return -9, false; }
      var file := held[Slot(t, fd)];
      CountedIn(counts, held, Slot(t, fd));
      var free := FirstFree(t, arg);
      CountedRaise(counts, held, Slot(t, free), file);
      LostUncounted(counts, held, t, GrowArrays.Room(free), file);
      var place := HasPlace(sizes[t], free);
      overrun := SetSlot(t, free, file);
      counts := Raised(counts, file);
      cloexec := Marked(cloexec, t, free, setCloexec || (t, fd) in cloexec, place);
      return free, overrun;
    }

    /** chdir behind filp_openat, whose new file is `file` (0 when it failed). */
    method Chdir(task: Task, file: File) returns (ok: bool)
      requires Valid() && Cwd(task) in held && file !in counts
      modifies this`counts, this`held, this`released
      ensures Valid() && ok == (file != 0)
      ensures held == if ok then old(held)[Cwd(task) := file] else old(held)
      ensures ok ==> ReleasedOnce(old(released), released, old(counts)[file := 1], counts)
      ensures !ok ==> unchanged(this)
    {
      if file == 0 { return false; }
      hide Counted, Lowered;
      ChdirKeeps(counts, held, Cwd(task), file);
      var cwd := held[Cwd(task)];
      counts := counts[file := 1];
      FilpClose(cwd);
      held := held[Cwd(task) := file];
      return true;
    }

    /** filp_close of every file in the descriptor array of t. */
    method CloseAll(t: Table)
      requires Valid() && t in sizes
      modifies this`counts, this`held, this`released
      ensures Counted(counts, held) && held == WithoutTable(old(held), t)
      ensures ReleasedOnce(old(released), released, old(counts), counts) && counts.Keys <= old(counts).Keys
    {
      hide Counted, Lowered;
      assert Gone(counts, counts) == {};
      assert held == WithoutSlots(held, t, 0);
      for i := 0 to sizes[t]
        invariant Counted(counts, held) && held == WithoutSlots(old(held), t, i)
        invariant ReleasedOnce(old(released), released, old(counts), counts) && counts.Keys <= old(counts).Keys
      {
        NextSlot(old(held), t, i);
        if Slot(t, i) in held { CloseHeld(Slot(t, i), old(counts), old(released)); }
      }
      AllSlots(old(held), sizes, t);
    }

    /** One of several closes. */
    method CloseHeld(h: Holder, ghost counts0: map<File, nat>, ghost released0: seq<File>)
      requires Counted(counts, held) && h in held
      requires ReleasedOnce(released0, released, counts0, counts) && counts.Keys <= counts0.Keys
      modifies this`counts, this`held, this`released
      ensures Counted(counts, held) && held == old(held) - {h}
      ensures ReleasedOnce(released0, released, counts0, counts) && counts.Keys <= counts0.Keys
    {
      hide Counted, Lowered, ReleasedOnce;
      CountedLower(counts, held, h);
      LoweredKeys(counts, held[h]);
      FilpClose(held[h]);
      ReleasesAddUp(released0, old(released), released, counts0, old(counts), counts);
      held := held - {h};
    }

    /** The part of do_exit that gives up the files of a task. */
    method Exit(task: Task)
      requires Valid()
      modifies this
      ensures Valid()
      ensures ReleasedOnce(old(released), released, old(counts), counts)
      ensures tables == old(tables) - {task}
      ensures held == if task in old(tables) && Count(old(tables), old(tables)[task]) == 1
                      then WithoutTable(WithoutTask(old(held), task), old(tables)[task])
                      else WithoutTask(old(held), task)
      ensures cloexec == if task in old(tables) && Count(old(tables), old(tables)[task]) == 1
                         then WithoutFlags(old(cloexec), old(tables)[task]) else old(cloexec)
    {
      hide Counted, Lowered, ReleasedOnce;
      NoneReleased(counts, released);
      if Cwd(task) in held { CloseHeld(Cwd(task), old(counts), old(released)); }
      if Exe(task) in held { CloseHeld(Exe(task), old(counts), old(released)); }
      assert held == WithoutTask(old(held), task);
      if task in tables { LeaveTable(task, old(counts), old(released)); }
      assert task !in old(tables) ==> tables - {task} == tables;
    }

    /** A task gives up its reference to a descriptor table, the last one with all descriptors. */
    method LeaveTable(task: Task, ghost counts0: map<File, nat>, ghost released0: seq<File>)
      requires Valid() && task in tables
      requires ReleasedOnce(released0, released, counts0, counts) && counts.Keys <= counts0.Keys
      modifies this
      ensures Valid() && tables == old(tables) - {task}
      ensures ReleasedOnce(released0, released, counts0, counts)
      ensures held == if Count(old(tables), old(tables)[task]) == 1 then WithoutTable(old(held), old(tables)[task])
                      else old(held)
      ensures cloexec == if Count(old(tables), old(tables)[task]) == 1
                         then WithoutFlags(old(cloexec), old(tables)[task]) else old(cloexec)
    {
      hide Counted, ReleasedOnce;
      var t := tables[task];
      CountedIs(tableCounts, tables, task);
      CountedLower(tableCounts, tables, task);
      if tableCounts[t] - 1 != 0 {
        tableCounts := tableCounts[t := tableCounts[t] - 1];
      } else {
        CloseAll(t);
        ReleasesAddUp(released0, old(released), released, counts0, old(counts), counts);
        cloexec := WithoutFlags(cloexec, t);
        tableCounts := tableCounts - {t};
        sizes := sizes - {t};
      }
      tables := tables - {task};
    }

    /** Another place gets the pointer in h, if there is one. */
    method ShareOwn(h: Holder, g: Holder)
      requires Counted(counts, held) && g !in held
      modifies this`counts, this`held
      ensures Counted(counts, held) && counts.Keys == old(counts).Keys
      ensures held == if h in old(held) then old(held)[g := old(held)[h]] else old(held)
    {
      if h in held {
        CountedRaise(counts, held, g, held[h]);
        counts := Raised(counts, held[h]);
        held := held[g := held[h]];
      }
    }

    /** The part of do_clone that hands on the files of a task. */
    method Clone(parent: Task, child: Task, share: bool, newTable: Table)
      requires Valid() && parent != child && Cwd(child) !in held && Exe(child) !in held && child !in tables
      requires newTable !in sizes
      modifies this
      ensures Valid() && released == old(released) && counts.Keys == old(counts).Keys
      ensures HandedOn(old(held), held, parent, child,
                       if parent in old(tables) && !share then Some(old(tables)[parent]) else None, newTable)
      ensures Cwd(child) in held <==> Cwd(parent) in old(held)
      ensures Cwd(parent) in old(held) ==> held[Cwd(child)] == old(held)[Cwd(parent)]
      ensures Exe(child) in held <==> Exe(parent) in old(held)
      ensures Exe(parent) in old(held) ==> held[Exe(child)] == old(held)[Exe(parent)]
      ensures parent in old(tables) && !share ==> forall fd: nat ::
                && (Slot(newTable, fd) in held <==> Slot(old(tables)[parent], fd) in old(held))
                && (Slot(newTable, fd) in held ==> held[Slot(newTable, fd)] == old(held)[Slot(old(tables)[parent], fd)])
      ensures tables == if parent in old(tables)
                        then old(tables)[child := if share then old(tables)[parent] else newTable] else old(tables)
      ensures cloexec == if parent in old(tables) && !share
                         then FlagsCopied(old(cloexec), old(tables)[parent], newTable) else old(cloexec)
      ensures parent in old(tables) && !share ==> forall u, fd :: (u, fd) in cloexec <==>
                (u, fd) in old(cloexec) || (u == newTable && (old(tables)[parent], fd) in old(cloexec))
    {
      hide Counted, HandedOn;
      ShareOwn(Cwd(parent), Cwd(child));
      ShareOwn(Exe(parent), Exe(child));
      OwnHandedOn(old(held), parent, child, newTable);
      assert held == WithOwn(old(held), parent, child);
      if parent in tables {
        if share {
          ShareTable(parent, child);
        } else {
          GiveCopy(parent, child, newTable);
          SlotsHandedOn(old(held), held, parent, child, old(tables)[parent], newTable);
          forall u, fd { FlagsCopiedAre(old(cloexec), old(tables)[parent], newTable, u, fd); }
        }
      }
    }

    method ShareTable(parent: Task, child: Task)
      requires Counted(tableCounts, tables) && parent in tables && child !in tables
      modifies this`tables, this`tableCounts
      ensures Counted(tableCounts, tables) && tables == old(tables)[child := old(tables)[parent]]
      ensures tableCounts.Keys == old(tableCounts).Keys
    {
      var t := tables[parent];
      CountedRaise(tableCounts, tables, child, t);
      tableCounts := Raised(tableCounts, t);
      tables := tables[child := t];
    }

    method GiveCopy(parent: Task, child: Task, newTable: Table)
      requires Valid() && parent in tables && child !in tables && newTable !in sizes
      modifies this
      ensures Valid() && released == old(released) && counts.Keys == old(counts).Keys
      ensures TableCopied(old(held), held, old(tables)[parent], newTable)
      ensures tables == old(tables)[child := newTable]
      ensures cloexec == FlagsCopied(old(cloexec), old(tables)[parent], newTable)
    {
      hide Counted, TableCopied;
      CountedIn(tableCounts, tables, parent);
      CountedNew(tableCounts, tables, child, newTable);
      CopyTable(tables[parent], newTable);
      tableCounts := tableCounts[newTable := 1];
      tables := tables[child := newTable];
    }

    /** A new descriptor table with all descriptors of another one. */
    method CopyTable(t: Table, copy: Table)
      requires Counted(counts, held) && SlotsOk(held, sizes) && FlagsOk(held, cloexec) && t in sizes && copy !in sizes
      modifies this`counts, this`held, this`sizes, this`cloexec
      ensures Counted(counts, held) && SlotsOk(held, sizes) && FlagsOk(held, cloexec)
      ensures counts.Keys == old(counts).Keys && sizes.Keys == old(sizes).Keys + {copy}
      ensures TableCopied(old(held), held, t, copy) && cloexec == FlagsCopied(old(cloexec), t, copy)
    {
      hide Counted, TableCopied;
      CopiedNone(held, t, copy);
      sizes := sizes[copy := 0];
      var size := sizes[t];
      for i := 0 to size
        invariant Counted(counts, held) && counts.Keys == old(counts).Keys && CopiedUpTo(old(held), held, t, copy, i)
        invariant SlotsOk(held, sizes) && sizes.Keys == old(sizes).Keys + {copy} && cloexec == old(cloexec)
      {
        CopiedNext(old(held), held, t, copy, i);
        if Slot(t, i) in held {
          var file := held[Slot(t, i)];
          CountedIn(counts, held, Slot(t, i));
          CountedRaise(counts, held, Slot(copy, i), file);
          var overrun := SetSlot(copy, i, file);
          counts := Raised(counts, file);
        }
      }
      CopiedAll(old(held), held, old(sizes), t, copy);
      AllFlagsCopied(old(cloexec), old(held), old(sizes), t, copy);
      for i := 0 to size
        modifies this`cloexec
        invariant cloexec == FlagsCopiedUpTo(old(cloexec), t, copy, i)
      {
        NextFlagCopied(old(cloexec), t, copy, i);
        if (t, i as nat) in cloexec {
          cloexec := cloexec + {(copy, i as nat)};
        }
      }
      CopiedFlags(old(held), held, t, copy, old(cloexec));
    }

    /** A new file takes the place of the one in a cwd or exe pointer. */
    method Install(h: Holder, file: File)
      requires Valid() && !h.Slot? && file !in counts
      modifies this`counts, this`held, this`released
      ensures Valid() && held == old(held)[h := file] && counts.Keys <= old(counts).Keys + {file}
      ensures ReleasedOnce(old(released), released, old(counts)[file := 1], counts)
    {
      hide Counted;
      if h in held {
        ChdirKeeps(counts, held, h, file);
        var was := held[h];
        counts := counts[file := 1];
        FilpClose(was);
      } else {
        CountedNew(counts, held, h, file);
        counts := counts[file := 1];
        NoneReleased(counts, released);
      }
      held := held[h := file];
    }

    /** The part of do_execve that closes the descriptors marked close-on-exec. */
    method CloseMarked(task: Task)
      requires Valid() && task in tables
      modifies this`counts, this`held, this`cloexec, this`released
      ensures Valid()
      ensures held == WithoutMarked(old(held), old(cloexec), tables[task])
      ensures cloexec == WithoutFlags(old(cloexec), tables[task])
      ensures ReleasedOnce(old(released), released, old(counts), counts) && counts.Keys <= old(counts).Keys
    {
      hide Counted, ReleasedOnce;
      var t := tables[task];
      CountedIn(tableCounts, tables, task);
      NoneReleased(counts, released);
      assert held == WithoutMarkedUpTo(held, cloexec, t, 0);
      for i := 0 to sizes[t]
        invariant Counted(counts, held) && FlagsOk(held, cloexec)
        invariant held == WithoutMarkedUpTo(old(held), old(cloexec), t, i)
        invariant cloexec == set x | x in old(cloexec) && !(x.0 == t && x.1 < i)
        invariant ReleasedOnce(old(released), released, old(counts), counts) && counts.Keys <= old(counts).Keys
      {
        NextMarked(old(held), old(cloexec), t, i);
        if Slot(t, i) in held && (t, i as nat) in cloexec {
          CloseHeld(Slot(t, i), old(counts), old(released));
          cloexec := cloexec - {(t, i as nat)};
        }
      }
      AllMarked(old(held), old(cloexec), sizes, t);
      FlagsInside(old(held), old(cloexec), sizes, t);
    }

    /** An empty descriptor table for a task that has none. */
    method NewTable(task: Task, t: Table)
      requires Valid() && task !in tables && t !in tableCounts
      modifies this`sizes, this`tables, this`tableCounts
      ensures Valid() && tables == old(tables)[task := t] && t in sizes
    {
      hide Counted, FlagsOk;
      CountedNew(tableCounts, tables, task, t);
      tables, tableCounts, sizes := tables[task := t], tableCounts[t := 1], sizes[t := 0];
    }

    /** The default descriptors of a task that has no table: the terminal three times, or opened twice.
        The terminal is taken to open. */
    method DefaultFiles(task: Task, t: Table, subsystem: Subsystem, tty: File, tty2: File)
      requires Valid() && task !in tables && t !in tableCounts && tty !in counts && tty2 !in counts && tty != tty2
      modifies this`counts, this`held, this`sizes, this`tables, this`tableCounts
      ensures Valid() && tables == old(tables)[task := t]
      ensures held == WithDefaults(old(held), t, subsystem, tty, tty2)
      ensures counts == DefaultCounts(old(counts), subsystem, tty, tty2)
    {
      hide Counted, FlagsOk, HasPlace, CutSlots, DefaultCounts, GrowArrays.Room;
      assert forall fd: nat :: Slot(t, fd) !in held;
      DefaultsCounted(counts, held, t, subsystem, tty, tty2);
      DefaultsFlags(held, cloexec, t, subsystem, tty, tty2);
      NewTable(task, t);
      hide SlotsOk;
      LowPlace(sizes[t], 0);
      var overrun := SetSlot(t, 0, tty);
      LowPlace(sizes[t], 1);
      overrun := SetSlot(t, 1, if subsystem.Linux? then tty else tty2);
      if subsystem.Linux? {
        LowPlace(sizes[t], 2);
        overrun := SetSlot(t, 2, tty);
      }
      assert held == WithDefaults(old(held), t, subsystem, tty, tty2) && SlotsOk(held, sizes);
      hide WithDefaults;
      counts := DefaultCounts(counts, subsystem, tty, tty2);
    }

    /** The part of do_execve that changes files.  A task without a working directory gets `cwd` (0 when
        it failed to open, which gives up and leaves an error for a pointer: `badCwd`), one without
        descriptors the default ones in the new table `t`. */
    method Execve(task: Task, exe: File, cwd: File, t: Table, subsystem: Subsystem, tty: File, tty2: File)
      returns (badCwd: bool)
      requires Valid() && t !in tableCounts && {exe, cwd, tty, tty2} !! counts.Keys
      requires exe != cwd && exe != tty && exe != tty2 && cwd != tty && cwd != tty2 && tty != tty2
      modifies this`counts, this`held, this`cloexec, this`released, this`sizes, this`tables, this`tableCounts
      ensures badCwd <==> cwd == 0 && Cwd(task) !in old(held)
      ensures badCwd ==>
                && held == old(held) && counts == old(counts) && cloexec == old(cloexec) && tables == old(tables)
                && released == old(released) + [exe]
      ensures !badCwd ==> Valid()
      ensures !badCwd && task in old(tables) ==>
                && held == WithoutMarked(Installed(old(held), task, exe, cwd), old(cloexec), old(tables)[task])
                && cloexec == WithoutFlags(old(cloexec), old(tables)[task]) && tables == old(tables)
                && ReleasedOnce(old(released), released, Opened(old(counts), exe, cwd, Cwd(task) !in old(held)), counts)
      ensures !badCwd && task !in old(tables) ==>
                && held == WithDefaults(Installed(old(held), task, exe, cwd), t, subsystem, tty, tty2)
                && cloexec == old(cloexec) && tables == old(tables)[task := t]
                && ReleasedOnce(old(released), released,
                     DefaultCounts(Opened(old(counts), exe, cwd, Cwd(task) !in old(held)), subsystem, tty, tty2),
                     counts)
    {
      hide Counted, ReleasedOnce, SlotsOk, FlagsOk;
      badCwd := cwd == 0 && Cwd(task) !in held;
      if badCwd {
        released := released + [exe];
        return;
      }
      InstallBoth(task, exe, cwd);
      ghost var c2, r2 := counts, released;
      ghost var c0 := Opened(old(counts), exe, cwd, Cwd(task) !in old(held));
      if task in tables {
        CloseMarked(task);
        ReleasesAddUp(old(released), r2, released, c0, c2, counts);
      } else {
        DefaultFiles(task, t, subsystem, tty, tty2);
        DefaultsOpened(old(released), released, c0, c2, subsystem, tty, tty2);
      }
    }

    /** Working directory and executable of execve. */
    method InstallBoth(task: Task, exe: File, cwd: File)
      requires Valid() && exe !in counts && cwd !in counts && exe != cwd
      modifies this`counts, this`held, this`released
      ensures Valid() && held == Installed(old(held), task, exe, cwd)
      ensures counts.Keys <= Opened(old(counts), exe, cwd, Cwd(task) !in old(held)).Keys
      ensures counts.Keys <= old(counts).Keys + {exe, cwd}
      ensures ReleasedOnce(old(released), released, Opened(old(counts), exe, cwd, Cwd(task) !in old(held)), counts)
    {
      hide Counted, ReleasedOnce;
      ghost var c0 := Opened(counts, exe, cwd, Cwd(task) !in held);
      NoneReleased(counts, released);
      if Cwd(task) !in held { Install(Cwd(task), cwd); }
      ghost var c1, r1 := counts, released;
      AlsoOpened(old(released), r1, if Cwd(task) in old(held) then old(counts) else old(counts)[cwd := 1], c1, exe);
      Install(Exe(task), exe);
      ReleasesAddUp(old(released), r1, released, c0, c1[exe := 1], counts);
    }
  }

  datatype Subsystem = Linux | Ece391

  function WithDefaults(held: map<Holder, File>, t: Table, subsystem: Subsystem, tty: File, tty2: File)
    : map<Holder, File>
  {
    if subsystem.Linux? then held[Slot(t, 0) := tty][Slot(t, 1) := tty][Slot(t, 2) := tty]
    else held[Slot(t, 0) := tty][Slot(t, 1) := tty2]
  }

  function DefaultCounts(counts: map<File, nat>, subsystem: Subsystem, tty: File, tty2: File): map<File, nat> {
    if subsystem.Linux? then counts[tty := 3] else counts[tty := 1][tty2 := 1]
  }

  lemma DefaultsCounted(counts: map<File, nat>, held: map<Holder, File>, t: Table, subsystem: Subsystem, tty: File,
                        tty2: File)
    requires Counted(counts, held) && tty !in counts && tty2 !in counts && tty != tty2
    requires forall fd: nat :: Slot(t, fd) !in held
    ensures Counted(DefaultCounts(counts, subsystem, tty, tty2), WithDefaults(held, t, subsystem, tty, tty2))
  {
    hide Counted;
    CountedNew(counts, held, Slot(t, 0), tty);
    var c1, h1 := counts[tty := 1], held[Slot(t, 0) := tty];
    if subsystem.Linux? {
      CountedRaise(c1, h1, Slot(t, 1), tty);
      CountedRaise(Raised(c1, tty), h1[Slot(t, 1) := tty], Slot(t, 2), tty);
      assert Raised(Raised(c1, tty), tty) == counts[tty := 3];
    } else {
      CountedNew(c1, h1, Slot(t, 1), tty2);
    }
  }

  lemma LowPlace(size: nat, fd: nat)
    requires fd < GrowArrays.INDEX_LIMIT
    ensures HasPlace(size, fd)
  {
  }

  lemma DefaultsFlags(held: map<Holder, File>, cloexec: set<(Table, nat)>, t: Table, subsystem: Subsystem, tty: File,
                      tty2: File)
    requires FlagsOk(held, cloexec)
    ensures FlagsOk(WithDefaults(held, t, subsystem, tty, tty2), cloexec)
  {
  }

  lemma DefaultsOpened(r0: seq<File>, r1: seq<File>, c0: map<File, nat>, c1: map<File, nat>, subsystem: Subsystem,
                       tty: File, tty2: File)
    requires ReleasedOnce(r0, r1, c0, c1) && {tty, tty2} !! c0.Keys && {tty, tty2} !! c1.Keys
    ensures ReleasedOnce(r0, r1, DefaultCounts(c0, subsystem, tty, tty2), DefaultCounts(c1, subsystem, tty, tty2))
  {
    assert Gone(DefaultCounts(c0, subsystem, tty, tty2), DefaultCounts(c1, subsystem, tty, tty2)) == Gone(c0, c1);
  }

  /** The counts with the files that execve opens. */
  function Opened(counts: map<File, nat>, exe: File, cwd: File, opensCwd: bool): map<File, nat> {
    (if opensCwd then counts[cwd := 1] else counts)[exe := 1]
  }

  lemma AlsoOpened(r0: seq<File>, r1: seq<File>, c0: map<File, nat>, c1: map<File, nat>, file: File)
    requires ReleasedOnce(r0, r1, c0, c1) && file !in c0 && file !in c1
    ensures ReleasedOnce(r0, r1, c0[file := 1], c1[file := 1])
  {
    assert Gone(c0[file := 1], c1[file := 1]) == Gone(c0, c1);
  }

  function Installed(held: map<Holder, File>, task: Task, exe: File, cwd: File): map<Holder, File> {
    (if Cwd(task) in held then held else held[Cwd(task) := cwd])[Exe(task) := exe]
  }

  /** Where each file is after exec: the new executable, the working directory the task had or the new
      one, at the descriptors of a task that had none the terminal, and everything else where it was. */
  lemma ExecPlaces(held: map<Holder, File>, task: Task, exe: File, cwd: File, t: Table, subsystem: Subsystem,
                   tty: File, tty2: File, h: Holder)
    ensures var i := Installed(held, task, exe, cwd);
            && Exe(task) in i && i[Exe(task)] == exe && Cwd(task) in i
            && i[Cwd(task)] == (if Cwd(task) in held then held[Cwd(task)] else cwd)
            && (h != Exe(task) && h != Cwd(task) ==> (h in i <==> h in held) && (h in held ==> i[h] == held[h]))
    ensures var d := WithDefaults(held, t, subsystem, tty, tty2);
            && Slot(t, 0) in d && Slot(t, 1) in d && d[Slot(t, 0)] == tty
            && (subsystem == Linux ==> d[Slot(t, 1)] == tty && Slot(t, 2) in d && d[Slot(t, 2)] == tty)
            && (subsystem == Ece391 ==> d[Slot(t, 1)] == tty2)
            && (h !in [Slot(t, 0), Slot(t, 1), Slot(t, 2)] ==>
                  (h in d <==> h in held) && (h in held ==> d[h] == held[h]))
  {
  }

  /** What closing the marked descriptors of a table, or all of them, leaves. */
  lemma ClosesExactly(held: map<Holder, File>, cloexec: set<(Table, nat)>, t: Table, u: Table, fd: nat, task: Task)
    ensures Slot(u, fd) in WithoutMarked(held, cloexec, t) <==> Slot(u, fd) in held && !(u == t && (t, fd) in cloexec)
    ensures Slot(u, fd) in WithoutTable(held, t) <==> Slot(u, fd) in held && u != t
    ensures (u, fd) in WithoutFlags(cloexec, t) <==> (u, fd) in cloexec && u != t
    ensures Cwd(task) in held <==> Cwd(task) in WithoutMarked(held, cloexec, t)
    ensures Cwd(task) in held <==> Cwd(task) in WithoutTable(held, t)
    ensures Exe(task) in held <==> Exe(task) in WithoutMarked(held, cloexec, t)
    ensures Exe(task) in held <==> Exe(task) in WithoutTable(held, t)
  {
  }

  // ---- Conservation --------------------------------------------------------------------------

  /** The holders determine every count. */
  lemma CountsDetermined<H, R>(counts: map<R, nat>, counts': map<R, nat>, held: map<H, R>)
    requires Counted(counts, held) && Counted(counts', held)
    ensures counts == counts'
  {
  }

  /** When a cloned task exits, with a table of its own or a shared one, every pointer and every
      count is as it was before the clone. */
  lemma CloneThenExit(held: map<Holder, File>, cloned: map<Holder, File>, exited: map<Holder, File>, parent: Task,
                      child: Task, copied: Option<Table>, copy: Table, counts: map<File, nat>, counts': map<File, nat>)
    requires Counted(counts, held) && Counted(counts', exited)
    requires Cwd(child) !in held && Exe(child) !in held && forall fd: nat :: Slot(copy, fd) !in held
    requires HandedOn(held, cloned, parent, child, copied, copy)
    requires exited == if copied.Some? then WithoutTable(WithoutTask(cloned, child), copy)
                       else WithoutTask(cloned, child)
    ensures exited == held && counts' == counts
  {
    assert exited == held;
    CountsDetermined(counts, counts', held);
  }

  /** For instance one descriptor, the only holder of its file, duplicated onto itself. */
  lemma LastReferenceLost()
    ensures var counts, held := map[7 := 1], map[Slot(1, 0) := 7];
            && Counted(counts, held) && LastOntoItself(counts, held, 1, 0, 0)
            && !Counted(Noted(DupClosed(counts, held, 1, 0), 7), held[Slot(1, 0) := 7])
  {
    var counts: map<File, nat>, held: map<Holder, File> := map[7 := 1], map[Slot(1, 0) := 7];
    assert Of(held, 7) == {Slot(1, 0)};
    DupKeeps(counts, held, 1, 0, 0);
  }

  /** For instance two descriptors, and dup2 of the first one onto -1: the second one is lost, nothing
      is stored, and the first file has a use too many. */
  lemma MinusOneLoses()
    ensures var counts, held, fd := map[7 := 1, 8 := 1], map[Slot(1, 0) := 7, Slot(1, 1) := 8], 0xFFFF_FFFF;
            && Counted(counts, held) && !HasPlace(2, fd)
            && CutSlots(held, 1, GrowArrays.Room(fd)) == map[Slot(1, 0) := 7]
            && !Counted(Raised(counts, 7), map[Slot(1, 0) := 7])
  {
    var counts: map<File, nat>, held: map<Holder, File> := map[7 := 1, 8 := 1], map[Slot(1, 0) := 7, Slot(1, 1) := 8];
    assert Of(held, 7) == {Slot(1, 0)} && Of(held, 8) == {Slot(1, 1)};
    GrowArrays.RoomExactly(0xFFFF_FFFF);
    hide GrowArrays.Room;
    LostUncounted(counts, held, 1, 1, 7);
    assert CutSlots(held, 1, 1) == map[Slot(1, 0) := 7];
  }
}
