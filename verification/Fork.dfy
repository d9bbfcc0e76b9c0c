/** `fork`, `fork_v0` and the page-fault handler of lib/fork.c, run without interference on the
    kernel's two-level tables.  What other environments may do between two system calls is the
    subject of module CowRuns; here the calls, their permissions and their loops are the code's
    own, and a failed call is a panic (`ok` is false). */
module Fork {
  import opened Common
  import opened Pmap

  // Directory and table index of PFTEMP, UTEMP and the exception stack page.
  const PFTEMP_D: nat := 1
  const PFTEMP_T: nat := 1023
  const UTEMP_D: nat := 1
  const UTEMP_T: nat := 0
  const XSTACK_D: nat := 954
  const XSTACK_T: nat := 1023

  function PfTemp(e: nat): Loc { Loc(e, PFTEMP_D, PFTEMP_T) }
  function UTemp(e: nat): Loc { Loc(e, UTEMP_D, UTEMP_T) }
  function XStack(e: nat): Loc { Loc(e, XSTACK_D, XSTACK_T) }

  predicate IsXStack(d: nat, t: nat) { d == XSTACK_D && t == XSTACK_T }

  /** The words an environment sees at `l`. */
  function Content(m: Mem, l: Loc): seq<Word> {
    if Pte(m, l) != NULL && Pte(m, l).frame < |m.phys| then m.phys[Pte(m, l).frame] else []
  }

  /** `x` and `l` name the same physical page. */
  predicate SamePage(m: Mem, x: Loc, l: Loc) {
    Pte(m, x) != NULL && Pte(m, l) != NULL && Pte(m, x).frame == Pte(m, l).frame
  }

  /** The page mapped at `l` is mapped nowhere else. */
  ghost predicate Private(m: Mem, l: Loc) {
    Pte(m, l) != NULL && forall x | x != l :: !SamePage(m, x, l)
  }

  /** A mapped page is never on the free list. */
  lemma MappedPageIsTaken(k: Kernel, l: Loc)
    requires k.Valid() && Pte(k.Snap(), l) != NULL
    ensures k.Taken(Pte(k.Snap(), l).frame) && |k.phys[Pte(k.Snap(), l).frame]| == NENTRIES
    ensures InRange(k.Snap(), l)
  {
    MappedPageIsCounted(k.Snap(), None, l);
  }

  /** memmove of one page, word by word: every name of the destination page now shows the source. */
  method CopyPage(k: Kernel, src: Loc, dst: Loc)
    requires k.Valid() && Pte(k.Snap(), src) != NULL && W in Pte(k.Snap(), dst).flags
    requires Pte(k.Snap(), src).frame != Pte(k.Snap(), dst).frame
    modifies k
    ensures k.Valid() && SameAddressSpaces(old(k.Snap()), k.Snap()) && k.pgdir == old(k.pgdir)
    ensures forall x :: Content(k.Snap(), x) == old(Content(k.Snap(), if SamePage(k.Snap(), x, dst) then src else x))
  {
    hide Shape, Counted, IsChain, Mappers, Pte, Pde;
    MappedPageIsTaken(k, src);
    MappedPageIsTaken(k, dst);
    ghost var m := k.Snap();
    ghost var from, to := Pte(m, src).frame, Pte(m, dst).frame;
    for i := 0 to NENTRIES
      invariant k.Valid() && SameAddressSpaces(m, k.Snap()) && |k.phys| == |m.phys| && k.pgdir == m.pgdir
      invariant forall q: nat | q < |k.phys| && q != to :: k.phys[q] == m.phys[q]
      invariant |k.phys[to]| == NENTRIES && k.phys[to][..i] == m.phys[from][..i]
    {
      MappedPageIsTaken(k, src);
      var page := k.PageLookup(src, None);
      k.Store(dst, i, k.phys[page.value.frame][i]);
    }
    MappedPageIsTaken(k, src);
    assert k.phys[to] == m.phys[from];
  }

  /** `sys_page_alloc`: a page of zeros nobody else maps, or a panic in the caller. */
  method AllocAt(k: Kernel, l: Loc, perm: set<Flag>) returns (ok: bool)
    requires k.Valid() && InRange(k.Snap(), l) && perm <= PTE_SYSCALL
    modifies k
    ensures k.Valid() && k.pgdir == old(k.pgdir)
    ensures ok ==> exists f :: Updated(old(k.Snap()), k.Snap(), l, Word(f, perm + {P, U}))
    ensures ok ==> Private(k.Snap(), l) && Content(k.Snap(), l) == ZeroPage()
    ensures ok ==> forall x | x != l :: Content(k.Snap(), x) == old(Content(k.Snap(), x))
    ensures !ok ==> k.free == []
  {
    hide Shape, Counted, IsChain, Mappers, Pte, Pde;
    ghost var m := k.Snap();
    forall x | Pte(m, x) != NULL
      ensures k.Taken(Pte(m, x).frame)
    {
      MappedPageIsTaken(k, x);
    }
    var r := k.EnvPageAlloc(l, Word(0, perm + {P, U}));
    ok := r == E_OK;
    if ok {
      MappedPageIsTaken(k, l);
      assert Updated(m, k.Snap(), l, Word(old(k.free)[0], perm + {P, U}));
      forall x | x != l && Pte(m, x) != NULL
        ensures Content(k.Snap(), x) == Content(m, x)
      {
        MappedPageIsTaken(k, x);
      }
    }
  }

  /** `sys_page_map`: a second name for a page; no content moves. */
  method MapAt(k: Kernel, src: Loc, dst: Loc, perm: set<Flag>) returns (ok: bool)
    requires k.Valid() && InRange(k.Snap(), src) && InRange(k.Snap(), dst)
    modifies k
    ensures k.Valid() && k.pgdir == old(k.pgdir)
    ensures ok ==> old(Pte(k.Snap(), src)) != NULL && (W in perm ==> W in old(Pte(k.Snap(), src)).flags)
    ensures ok ==> Updated(old(k.Snap()), k.Snap(), dst, Word(old(Pte(k.Snap(), src)).frame, perm + {P, U}))
    ensures ok ==> forall x :: Content(k.Snap(), x) == old(Content(k.Snap(), if x == dst then src else x))
    ensures !ok ==> k.free == [] || old(Pte(k.Snap(), src)) == NULL || (W in perm && W !in old(Pte(k.Snap(), src)).flags)
  {
    hide Shape, Counted, IsChain, Mappers, Pte, Pde;
    ghost var m := k.Snap();
    forall x | Pte(m, x) != NULL
      ensures k.Taken(Pte(m, x).frame)
    {
      MappedPageIsTaken(k, x);
    }
    var r := k.EnvPageMap(src, dst, Word(0, perm + {P, U}));
    ok := r == E_OK;
    if ok {
      assert perm + {P, U} + {P} == perm + {P, U};
    }
  }

  /** `sys_page_unmap`. */
  method UnmapAt(k: Kernel, l: Loc)
    requires k.Valid() && InRange(k.Snap(), l)
    modifies k
    ensures k.Valid() && k.pgdir == old(k.pgdir) && Updated(old(k.Snap()), k.Snap(), l, NULL)
    ensures forall x | x != l :: Content(k.Snap(), x) == old(Content(k.Snap(), x))
  {
    hide Shape, Counted, IsChain, Mappers, Pte, Pde, Unmap;
    ghost var m := k.Snap();
    forall x | Pte(m, x) != NULL
      ensures k.Taken(Pte(m, x).frame)
    {
      MappedPageIsTaken(k, x);
    }
    k.PageRemove(l, None);
  }

  /** The handler installed by fork.  Its test for a fault on a page that is not copy-on-write
      can never succeed, so it copies whatever page is there. */
  method Pgfault(k: Kernel, l: Loc) returns (ok: bool)
    requires k.Valid() && Pte(k.Snap(), l) != NULL && l != PfTemp(l.e) && Pte(k.Snap(), PfTemp(l.e)) == NULL
    modifies k
    ensures k.Valid() && k.pgdir == old(k.pgdir)
    ensures ok ==> Private(k.Snap(), l) && Pte(k.Snap(), l).flags == {P, U, W}
    ensures ok ==> forall x | x != l :: Pte(k.Snap(), x) == old(Pte(k.Snap(), x))
    ensures ok ==> forall x :: Content(k.Snap(), x) == old(Content(k.Snap(), x))
    ensures !ok ==> k.free == []
  {
    hide Shape, Counted, IsChain, Mappers, Pte, Pde;
    MappedPageIsTaken(k, l);
    var tmp := PfTemp(l.e);
    ghost var m := k.Snap();
    ok := AllocAt(k, tmp, {P, U, W});
    if !ok {
      return;
    }
    assert {P, U, W} + {P, U} == {P, U, W};
    assert !SamePage(k.Snap(), l, tmp);
    ghost var a := k.Snap();
    CopyPage(k, l, tmp);
    ok := MapAt(k, tmp, l, {P, U, W});
    if !ok {
      return;
    }
    ghost var b := k.Snap();
    assert Updated(a, b, l, Word(Pte(a, tmp).frame, {P, U, W}));
    UnmapAt(k, tmp);
    OnlyOneNameLeft(a, b, k.Snap(), tmp, l);
  }

  /** A page known only at `tmp`, then mapped at `l` and unmapped at `tmp`, is known only at `l`. */
  lemma OnlyOneNameLeft(a: Mem, b: Mem, c: Mem, tmp: Loc, l: Loc)
    requires Private(a, tmp) && l != tmp
    requires exists flags :: P in flags && Updated(a, b, l, Word(Pte(a, tmp).frame, flags))
    requires Updated(b, c, tmp, NULL)
    ensures Private(c, l)
  {
    hide Pte;
    assert Pte(c, l).frame == Pte(a, tmp).frame;
    forall x | x != l
      ensures !SamePage(c, x, l)
    {
      assert x != tmp ==> Pte(c, x) == Pte(a, x) && !SamePage(a, x, tmp);
    }
  }

  // ---------------------------------------------------------------- fork

  /** Cache bits survive duppage, always both of them. */
  function Io(w: Word): set<Flag> {
    if PCD in w.flags || PWT in w.flags then {PCD, PWT} else {}
  }

  predicate Copied(w: Word) {
    W in w.flags || COW in w.flags
  }

  predicate UserPage(w: Word) {
    P in w.flags && U in w.flags
  }

  /** What fork leaves in the child for a parent entry `w`. */
  function ChildPte(w: Word): Word {
    if !UserPage(w) then NULL
    else Word(w.frame, {P, U} + Io(w) + if Copied(w) then {COW} else {})
  }

  /** What fork leaves in the parent. */
  function ParentPte(w: Word): Word {
    if UserPage(w) && Copied(w) then Word(w.frame, {P, U} + Io(w) + {COW}) else w
  }

  /** What that comes to: the child's entry names the same page and cannot be written; where the
      parent's could, or was copied already, both are marked and neither can. */
  lemma ForkProtects(w: Word)
    ensures {P, U} <= w.flags ==>
              var a, b := ParentPte(w), ChildPte(w);
              && a.frame == b.frame == w.frame && {P, U} <= a.flags && {P, U} <= b.flags && W !in b.flags && W !in a.flags
              && (COW in b.flags <==> W in w.flags || COW in w.flags) && (COW in a.flags <==> COW in b.flags)
              && (PCD in b.flags <==> PCD in w.flags || PWT in w.flags) && (PWT in b.flags <==> PCD in b.flags)
              && (W in w.flags || COW in w.flags ==> a == b) && (!(W in w.flags || COW in w.flags) ==> a == w)
    ensures !({P, U} <= w.flags) ==> ChildPte(w) == NULL && ParentPte(w) == w
  {
  }

  /** `n` is `m` after one page has been given to the child. */
  ghost predicate Dupped(m: Mem, n: Mem, child: nat, l: Loc) {
    && (forall x :: Pte(n, x) == if x == l then ParentPte(Pte(m, l))
                                 else if x == Loc(child, l.d, l.t) then ChildPte(Pte(m, l))
                                 else Pte(m, x))
    && (forall x :: Content(n, x) == Content(m, if x == Loc(child, l.d, l.t) then l else x))
  }

  method Duppage(k: Kernel, child: nat, l: Loc) returns (ok: bool)
    requires k.Valid() && InRange(k.Snap(), l) && InRange(k.Snap(), Loc(child, l.d, l.t)) && child != l.e
    requires UserPage(Pte(k.Snap(), l))
    modifies k
    ensures k.Valid() && k.pgdir == old(k.pgdir)
    ensures ok ==> Dupped(old(k.Snap()), k.Snap(), child, l)
    ensures ok ==> W !in Pte(k.Snap(), l).flags && W !in Pte(k.Snap(), Loc(child, l.d, l.t)).flags
    ensures ok && (W in old(Pte(k.Snap(), l)).flags || COW in old(Pte(k.Snap(), l)).flags) ==>
              COW in Pte(k.Snap(), l).flags && COW in Pte(k.Snap(), Loc(child, l.d, l.t)).flags
    ensures !ok ==> k.free == []
  {
    hide Shape, Counted, IsChain, Mappers, Pte, Pde;
    var dst := Loc(child, l.d, l.t);
    var pte := k.PageLookup(l, None);
    ghost var w := pte.value;
    var perm := {P, U};
    if PCD in pte.value.flags || PWT in pte.value.flags {
      perm := perm + {PCD, PWT};
    }
    if W in pte.value.flags || COW in pte.value.flags {
      ok := MapAt(k, l, dst, perm + {COW});
      if ok {
        assert perm + {COW} + {P, U} == {P, U} + Io(w) + {COW};
        ok := MapAt(k, l, l, perm + {COW});
      }
    } else {
      ok := MapAt(k, l, dst, perm);
      assert perm + {P, U} == {P, U} + Io(w) + {};
    }
  }

  predicate Below(d: nat, t: nat, pn: nat) {
    t < NENTRIES && d * NENTRIES + t < pn
  }

  /** Page `(d, t)` comes before page number `pn` and is not the exception stack. */
  predicate Before(d: nat, t: nat, pn: nat) {
    Below(d, t, pn) && !IsXStack(d, t)
  }

  /** The pages numbered below `pn` are forked; every other is as in `m`. */
  ghost predicate Progress(m: Mem, n: Mem, parent: nat, child: nat, pn: nat) {
    && (forall x: Loc | x.e != child && x.e != parent :: Pte(n, x) == Pte(m, x))
    && (forall d: nat, t: nat :: Pte(n, Loc(child, d, t)) == if Before(d, t, pn) then ChildPte(Pte(m, Loc(parent, d, t))) else NULL)
    && (forall d: nat, t: nat :: Pte(n, Loc(parent, d, t)) ==
          if Before(d, t, pn) then ParentPte(Pte(m, Loc(parent, d, t))) else Pte(m, Loc(parent, d, t)))
    && (forall x: Loc | x.e != child :: Content(n, x) == Content(m, x))
    && (forall d: nat, t: nat | Before(d, t, pn) && UserPage(Pte(m, Loc(parent, d, t))) ::
          Content(n, Loc(child, d, t)) == Content(m, Loc(parent, d, t)))
  }

  lemma PageNumberIsUnique(d: nat, t: nat, pn: nat)
    requires t < NENTRIES && d * NENTRIES + t == pn
    ensures d == pn / NENTRIES && t == pn % NENTRIES
  {
  }

  lemma StepProgress(m: Mem, b: Mem, n: Mem, parent: nat, child: nat, pn: nat)
    requires Progress(m, b, parent, child, pn) && parent != child
    requires var l := Loc(parent, pn / NENTRIES, pn % NENTRIES);
             if !IsXStack(l.d, l.t) && UserPage(Pte(b, l)) then Dupped(b, n, child, l) else n == b
    ensures Progress(m, n, parent, child, pn + 1)
  {
    var l := Loc(parent, pn / NENTRIES, pn % NENTRIES);
    forall d: nat, t: nat
      ensures Before(d, t, pn + 1) <==> Before(d, t, pn) || (!IsXStack(d, t) && d == l.d && t == l.t)
    {
      if t < NENTRIES && d * NENTRIES + t == pn {
        PageNumberIsUnique(d, t, pn);
      }
    }
    assert !Before(l.d, l.t, pn);
  }

  lemma NothingOutOfRange(m: Mem, l: Loc)
    requires !(l.d < NPDE && l.t < NENTRIES)
    ensures Pte(m, l) == NULL && ChildPte(Pte(m, l)) == NULL && ParentPte(Pte(m, l)) == Pte(m, l)
  {
  }

  lemma PresentPagesArePresent(k: Kernel, l: Loc)
    requires k.Valid() && InRange(k.Snap(), l)
    ensures k.pgdir[l.e] < |k.phys| && |k.phys[k.pgdir[l.e]]| == NENTRIES
    ensures Pte(k.Snap(), l) != NULL ==>
              P in Pte(k.Snap(), l).flags && {P, U} <= k.phys[k.pgdir[l.e]][l.d].flags
  {
    if Pte(k.Snap(), l) != NULL {
      MappedPageIsCounted(k.Snap(), None, l);
    }
    DirectoryWords(k.Snap(), l.e, l.d);
  }

  /** Nobody can write a page parent and child have in common, and it is marked if somebody could. */
  ghost predicate ProtectedInBoth(m: Mem, n: Mem, parent: nat, child: nat) {
    forall d: nat, t: nat | !IsXStack(d, t) && {P, U} <= Pte(m, Loc(parent, d, t)).flags ::
      var w, a, b := Pte(m, Loc(parent, d, t)), Pte(n, Loc(parent, d, t)), Pte(n, Loc(child, d, t));
      && a.frame == b.frame == w.frame && {P, U} <= a.flags && {P, U} <= b.flags && W !in a.flags && W !in b.flags
      && (W in w.flags || COW in w.flags ==> COW in a.flags && COW in b.flags)
  }

  lemma ForkedIsProtected(m: Mem, n: Mem, parent: nat, child: nat)
    requires forall d: nat, t: nat | !IsXStack(d, t) ::
               Pte(n, Loc(child, d, t)) == ChildPte(Pte(m, Loc(parent, d, t))) && Pte(n, Loc(parent, d, t)) == ParentPte(Pte(m, Loc(parent, d, t)))
    ensures ProtectedInBoth(m, n, parent, child)
  {
    hide Pte, ChildPte, ParentPte;
    forall d: nat, t: nat | !IsXStack(d, t) && {P, U} <= Pte(m, Loc(parent, d, t)).flags
      ensures var w, a, b := Pte(m, Loc(parent, d, t)), Pte(n, Loc(parent, d, t)), Pte(n, Loc(child, d, t));
              && a.frame == b.frame == w.frame && {P, U} <= a.flags && {P, U} <= b.flags && W !in a.flags && W !in b.flags
              && (W in w.flags || COW in w.flags ==> COW in a.flags && COW in b.flags)
    {
      ForkProtects(Pte(m, Loc(parent, d, t)));
    }
  }

  /** fork, from the parent's side of sys_exofork to sys_env_set_status. */
  method CowFork(k: Kernel, parent: nat, child: nat) returns (ok: bool)
    requires k.Valid() && parent in k.pgdir && child in k.pgdir && parent != child
    requires forall x: Loc | x.e == child :: Pte(k.Snap(), x) == NULL
    modifies k
    ensures k.Valid() && k.pgdir == old(k.pgdir)
    ensures ok ==> forall x: Loc | x.e != child && x.e != parent :: Pte(k.Snap(), x) == old(Pte(k.Snap(), x))
    ensures ok ==> forall d: nat, t: nat | !IsXStack(d, t) ::
                     Pte(k.Snap(), Loc(child, d, t)) == ChildPte(old(Pte(k.Snap(), Loc(parent, d, t)))) &&
                     Pte(k.Snap(), Loc(parent, d, t)) == ParentPte(old(Pte(k.Snap(), Loc(parent, d, t))))
    ensures ok ==> ProtectedInBoth(old(k.Snap()), k.Snap(), parent, child)
    ensures ok ==> forall x: Loc | x.e != child :: Content(k.Snap(), x) == old(Content(k.Snap(), x))
    ensures ok ==> forall d: nat, t: nat | !IsXStack(d, t) && UserPage(old(Pte(k.Snap(), Loc(parent, d, t)))) ::
                     Content(k.Snap(), Loc(child, d, t)) == old(Content(k.Snap(), Loc(parent, d, t)))
    ensures ok ==> Private(k.Snap(), XStack(child)) && Content(k.Snap(), XStack(child)) == ZeroPage()
    ensures ok ==> Pte(k.Snap(), XStack(child)).flags == {P, U, W}
    ensures ok ==> Pte(k.Snap(), XStack(parent)) == old(Pte(k.Snap(), XStack(parent)))
    ensures !ok ==> k.free == []
  {
    hide Shape, Counted, IsChain, Mappers, Pte, Pde, ChildPte, ParentPte, Content, Dupped, ProtectedInBoth;
    ghost var m := k.Snap();
    var pn := 0;
    assert forall x :: Content(m, x) == Content(m, x);
    while pn < NPDE * NENTRIES
      invariant 0 <= pn <= NPDE * NENTRIES && k.Valid() && k.pgdir == m.pgdir
      invariant Progress(m, k.Snap(), parent, child, pn)
    {
      var d, t := pn / NENTRIES, pn % NENTRIES;
      var l := Loc(parent, d, t);
      ghost var before := k.Snap();
      PresentPagesArePresent(k, l);
      if !IsXStack(d, t) {
        var pde := k.phys[k.pgdir[parent]][d];
        if P in pde.flags && U in pde.flags {
          var pte := k.PageLookup(l, None);
          if pte.Some? && U in pte.value.flags {
            ok := Duppage(k, child, l);
            if !ok {
              return;
            }
          }
        }
      }
      StepProgress(m, before, k.Snap(), parent, child, pn);
      pn := pn + 1;
    }
    forall d: nat, t: nat | !IsXStack(d, t) && !Before(d, t, pn)
      ensures ChildPte(Pte(m, Loc(parent, d, t))) == NULL
      ensures ParentPte(Pte(m, Loc(parent, d, t))) == Pte(m, Loc(parent, d, t)) == NULL
    {
      NothingOutOfRange(m, Loc(parent, d, t));
    }
    ok := AllocAt(k, XStack(child), {P, U, W});
    assert {P, U, W} + {P, U} == {P, U, W};
    if ok {
      ForkedIsProtected(m, k.Snap(), parent, child);
    }
  }

  // ---------------------------------------------------------------- fork_v0

  /** Flags of the child's entry: writable exactly when the parent's is. */
  function V0Flags(w: Word): set<Flag> {
    {P, U} + (w.flags * {W}) + Io(w)
  }

  /** fork_v0 gives the child a page of its own; any other page it shares. */
  predicate Owned(w: Word) {
    W in w.flags && Io(w) == {}
  }

  /** What that comes to: the child can write a page exactly where the parent can, and never one it
      shares unless that is cache-controlled. */
  lemma V0Protects(w: Word)
    ensures {P, U} <= V0Flags(w) && (W in V0Flags(w) <==> W in w.flags) && COW !in V0Flags(w)
    ensures PCD in V0Flags(w) <==> PCD in w.flags || PWT in w.flags
    ensures PWT in V0Flags(w) <==> PCD in w.flags || PWT in w.flags
    ensures Owned(w) <==> W in w.flags && PCD !in w.flags && PWT !in w.flags
  {
  }

  /** `n` is `m` after dup_or_share has given `l` to the child. */
  ghost predicate Shared(m: Mem, n: Mem, child: nat, l: Loc) {
    var dst := Loc(child, l.d, l.t);
    && (forall x | x != dst :: Pte(n, x) == Pte(m, x) && Content(n, x) == Content(m, x))
    && Pte(n, dst) != NULL && Pte(n, dst).flags == V0Flags(Pte(m, l)) && Content(n, dst) == Content(m, l)
    && (if Owned(Pte(m, l)) then Private(n, dst) else Pte(n, dst).frame == Pte(m, l).frame)
  }

  /** The branch of dup_or_share that copies: allocate in the child, alias the page at `tmp`
      in the parent, copy, drop the alias. */
  method DupInto(k: Kernel, l: Loc, dst: Loc, tmp: Loc, perm: set<Flag>) returns (ok: bool)
    requires k.Valid() && InRange(k.Snap(), dst) && InRange(k.Snap(), tmp) && l != dst && l != tmp && dst != tmp
    requires Pte(k.Snap(), l) != NULL && Pte(k.Snap(), tmp) == NULL && W in perm && perm <= PTE_SYSCALL
    modifies k
    ensures k.Valid() && k.pgdir == old(k.pgdir)
    ensures ok ==> forall x | x != dst :: Pte(k.Snap(), x) == old(Pte(k.Snap(), x))
    ensures ok ==> forall x | x != dst :: Content(k.Snap(), x) == old(Content(k.Snap(), x))
    ensures ok ==> Private(k.Snap(), dst) && Pte(k.Snap(), dst).flags == perm + {P, U}
    ensures ok ==> Content(k.Snap(), dst) == old(Content(k.Snap(), l))
    ensures !ok ==> k.free == []
  {
    hide Shape, Counted, IsChain, Mappers, Pte, Pde, Content;
    ok := AllocAt(k, dst, perm);
    if !ok {
      return;
    }
    ghost var a := k.Snap();
    assert !SamePage(a, l, dst);
    ok := MapAt(k, dst, tmp, perm);
    if !ok {
      return;
    }
    ghost var b := k.Snap();
    assert Pte(b, tmp) == Word(Pte(a, dst).frame, perm + {P, U});
    assert forall x | x != dst && x != tmp :: SamePage(b, x, tmp) <==> SamePage(a, x, dst);
    CopyPage(k, l, tmp);
    ghost var c := k.Snap();
    assert Content(c, dst) == Content(b, l);
    assert forall x | x != dst && x != tmp :: Content(c, x) == Content(b, x);
    UnmapAt(k, tmp);
    assert forall x | x != tmp :: Pte(k.Snap(), x) == Pte(a, x);
    forall x | x != dst
      ensures !SamePage(k.Snap(), x, dst)
    {
      assert x != tmp ==> Pte(k.Snap(), x) == Pte(a, x) && !SamePage(a, x, dst);
    }
    EmptyPlace(k.Snap(), tmp);
    EmptyPlace(old(k.Snap()), tmp);
  }

  lemma EmptyPlace(m: Mem, l: Loc)
    requires Pte(m, l) == NULL
    ensures Content(m, l) == []
  {
  }

  method DupOrShare(k: Kernel, child: nat, l: Loc) returns (ok: bool)
    requires k.Valid() && InRange(k.Snap(), l) && InRange(k.Snap(), Loc(child, l.d, l.t)) && child != l.e
    requires Pte(k.Snap(), l) != NULL && Pte(k.Snap(), UTemp(l.e)) == NULL
    modifies k
    ensures k.Valid() && k.pgdir == old(k.pgdir)
    ensures ok ==> Shared(old(k.Snap()), k.Snap(), child, l)
    ensures ok ==> (W in Pte(k.Snap(), Loc(child, l.d, l.t)).flags <==> W in old(Pte(k.Snap(), l)).flags)
    ensures ok && old(W in Pte(k.Snap(), l).flags && PCD !in Pte(k.Snap(), l).flags && PWT !in Pte(k.Snap(), l).flags) ==>
              Private(k.Snap(), Loc(child, l.d, l.t))
    ensures !ok ==> k.free == []
  {
    hide Shape, Counted, IsChain, Mappers, Pte, Pde, Content, Private;
    var dst, tmp := Loc(child, l.d, l.t), UTemp(l.e);
    var pte := k.PageLookup(l, None);
    ghost var w := pte.value;
    var perm := PTE_SYSCALL * {P, U, W} * (pte.value.flags * {W});
    assert perm == w.flags * {W};
    if PCD in pte.value.flags || PWT in pte.value.flags {
      perm := perm + {PCD, PWT};
    }
    assert perm + {P, U} == V0Flags(w);
    if W !in pte.value.flags || PCD in pte.value.flags || PWT in pte.value.flags {
      ok := MapAt(k, l, dst, perm);
    } else {
      ok := DupInto(k, l, dst, tmp, perm);
    }
  }

  /** The pages numbered below `pn` are in the child; nothing else has moved. */
  ghost predicate V0Progress(m: Mem, n: Mem, parent: nat, child: nat, pn: nat) {
    && (forall x: Loc | x.e != child :: Pte(n, x) == Pte(m, x) && Content(n, x) == Content(m, x))
    && (forall d: nat, t: nat | Below(d, t, pn) && Pte(m, Loc(parent, d, t)) != NULL ::
          var w, c := Pte(m, Loc(parent, d, t)), Loc(child, d, t);
          Pte(n, c) != NULL && Pte(n, c).flags == V0Flags(w) && Content(n, c) == Content(m, Loc(parent, d, t)) &&
          (if Owned(w) then Private(n, c) else Pte(n, c).frame == w.frame))
    && (forall d: nat, t: nat | !Below(d, t, pn) || Pte(m, Loc(parent, d, t)) == NULL ::
          Pte(n, Loc(child, d, t)) == NULL)
  }

  lemma V0StepProgress(m: Mem, b: Mem, n: Mem, parent: nat, child: nat, pn: nat)
    requires V0Progress(m, b, parent, child, pn) && parent != child
    requires var l := Loc(parent, pn / NENTRIES, pn % NENTRIES);
             if Pte(b, l) != NULL then Shared(b, n, child, l) else n == b
    ensures V0Progress(m, n, parent, child, pn + 1)
  {
    hide Pte, Content;
    var l := Loc(parent, pn / NENTRIES, pn % NENTRIES);
    var dst := Loc(child, l.d, l.t);
    assert Pte(b, l) == Pte(m, l);
    forall d: nat, t: nat
      ensures Below(d, t, pn + 1) <==> Below(d, t, pn) || (d == l.d && t == l.t)
    {
      if t < NENTRIES && d * NENTRIES + t == pn {
        PageNumberIsUnique(d, t, pn);
      }
    }
    forall d: nat, t: nat | Below(d, t, pn) && Private(b, Loc(child, d, t))
      ensures Private(n, Loc(child, d, t))
    {
      var c := Loc(child, d, t);
      if Pte(b, l) != NULL {
        assert !SamePage(b, l, c);
        forall x | x != c
          ensures !SamePage(n, x, c)
        {
          assert !SamePage(b, x, c);
          assert Private(n, dst) ==> !SamePage(n, c, dst);
        }
      }
    }
  }

  /** Every page of the parent's in `m` is in `n` the child's: its own where the parent can write, the
      same one where not. */
  ghost predicate V0Copied(m: Mem, n: Mem, parent: nat, child: nat) {
    forall d: nat, t: nat ::
      var w, c := Pte(m, Loc(parent, d, t)), Loc(child, d, t);
      && (Pte(n, c) == NULL <==> w == NULL) && Content(n, c) == Content(m, Loc(parent, d, t))
      && (w != NULL ==> Pte(n, c).flags == V0Flags(w) && if Owned(w) then Private(n, c) else Pte(n, c).frame == w.frame)
  }

  /** The child can write where the parent can, and there, but for cache-controlled pages, nobody else
      has the page. */
  ghost predicate OwnedByChild(m: Mem, n: Mem, parent: nat, child: nat) {
    forall d: nat, t: nat | Pte(m, Loc(parent, d, t)) != NULL ::
      var w, c := Pte(m, Loc(parent, d, t)), Loc(child, d, t);
      && (W in Pte(n, c).flags <==> W in w.flags)
      && (W in w.flags && PCD !in w.flags && PWT !in w.flags ==> Private(n, c))
      && (W !in w.flags || PCD in w.flags || PWT in w.flags ==> Pte(n, c).frame == w.frame)
  }

  /** fork_v0: the child gets the words of every page the parent maps, in pages of its own where
      the parent can write. */
  method ForkV0(k: Kernel, parent: nat, child: nat) returns (ok: bool)
    requires k.Valid() && parent in k.pgdir && child in k.pgdir && parent != child
    requires forall x: Loc | x.e == child :: Pte(k.Snap(), x) == NULL
    requires Pte(k.Snap(), UTemp(parent)) == NULL
    modifies k
    ensures k.Valid() && k.pgdir == old(k.pgdir)
    ensures ok ==> forall x: Loc | x.e != child ::
                     Pte(k.Snap(), x) == old(Pte(k.Snap(), x)) && Content(k.Snap(), x) == old(Content(k.Snap(), x))
    ensures ok ==> V0Copied(old(k.Snap()), k.Snap(), parent, child) && OwnedByChild(old(k.Snap()), k.Snap(), parent, child)
    ensures !ok ==> k.free == []
  {
    hide Shape, Counted, IsChain, Mappers, Pte, Pde, Content, Shared, Private, V0Copied, OwnedByChild;
    ghost var m := k.Snap();
    ok := true;
    var pn := 0;
    while pn < NPDE * NENTRIES
      invariant 0 <= pn <= NPDE * NENTRIES && k.Valid() && k.pgdir == m.pgdir
      invariant V0Progress(m, k.Snap(), parent, child, pn) && ok
    {
      var d, t := pn / NENTRIES, pn % NENTRIES;
      var l := Loc(parent, d, t);
      ghost var before := k.Snap();
      PresentPagesArePresent(k, l);
      var pde := k.phys[k.pgdir[parent]][d];
      if P in pde.flags && U in pde.flags {
        var pte := k.PageLookup(l, None);
        if pte.Some? {
          ok := DupOrShare(k, child, l);
          if !ok {
            return;
          }
        }
      }
      V0StepProgress(m, before, k.Snap(), parent, child, pn);
      pn := pn + 1;
    }
    V0Finished(m, k.Snap(), parent, child);
  }

  lemma V0Finished(m: Mem, n: Mem, parent: nat, child: nat)
    requires V0Progress(m, n, parent, child, NPDE * NENTRIES) && parent != child
    ensures V0Copied(m, n, parent, child) && OwnedByChild(m, n, parent, child)
  {
    forall d: nat, t: nat | !Below(d, t, NPDE * NENTRIES)
      ensures Pte(m, Loc(parent, d, t)) == NULL
    {
      NothingOutOfRange(m, Loc(parent, d, t));
    }
  }
}
