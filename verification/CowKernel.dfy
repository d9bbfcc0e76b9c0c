/** The machine of CowRuns is the kernel of Pmap: every instruction and system call of CowRuns,
    carried out on the two-level tables, leaves them showing the state CowRuns says.  What is
    proved there of all runs is so proved of the tables. */
module CowKernel {
  import opened Common
  import opened Pmap
  import F = Fork
  import C = CowRuns

  function At(l: Loc): C.Loc {
    C.Loc(l.e, l.d * NENTRIES + l.t)
  }

  function Place(x: C.Loc): Loc {
    Loc(x.e, x.v / NENTRIES, x.v % NENTRIES)
  }

  lemma PlaceAt(l: Loc)
    requires l.t < NENTRIES
    ensures Place(At(l)) == l && (l.d < NPDE <==> At(l).v < C.LIMIT)
  {
  }

  lemma AtPlace(x: C.Loc)
    ensures At(Place(x)) == x && Place(x).t < NENTRIES && (x.v < C.LIMIT <==> Place(x).d < NPDE)
  {
  }

  predicate ShownEntry(w: Word, p: C.Pte) {
    p.ppn == w.frame && p.w == (W in w.flags) && p.cow == (COW in w.flags)
  }

  predicate ShownPage(words: seq<Word>, page: C.Page, code: Word -> nat) {
    |words| == NENTRIES && forall i: nat | i < NENTRIES :: page[i] == code(words[i])
  }

  /** The tables of `m` show the address spaces of `s`, with `code` for the number a word stands for. */
  ghost predicate Shows(m: Mem, s: C.State, code: Word -> nat) {
    && code(NULL) == 0 && s.ctl.Keys == m.pgdir.Keys
    && (forall x: C.Loc :: x in s.pt <==> x.v < C.LIMIT && Pte(m, Place(x)) != NULL)
    && (forall x | x in s.pt :: ShownEntry(Pte(m, Place(x)), s.pt[x]))
    && (forall f: nat | f < |m.phys| :: f in s.mem)
    && (forall x | x in s.pt :: s.pt[x].ppn < |m.phys| && ShownPage(m.phys[s.pt[x].ppn], s.mem[s.pt[x].ppn], code))
  }

  /** Two states that differ in who is where inside fork and the handler only. */
  predicate SameMemory(s: C.State, t: C.State) {
    s.pt == t.pt && s.mem == t.mem && s.ctl.Keys == t.ctl.Keys
  }

  lemma SameMemoryShows(m: Mem, s: C.State, t: C.State, code: Word -> nat)
    requires Shows(m, s, code) && SameMemory(s, t)
    ensures Shows(m, t, code)
  {
  }

  /** No page that is mapped has been written. */
  ghost predicate MappedKept(m: Mem, n: Mem) {
    |n.phys| == |m.phys| && forall x: Loc | Pte(m, x) != NULL :: Pte(m, x).frame < |m.phys| && n.phys[Pte(m, x).frame] == m.phys[Pte(m, x).frame]
  }

  /** What one updated entry shows. */
  lemma EntryShown(m: Mem, n: Mem, l: Loc, w: Word, x: C.Loc)
    requires Updated(m, n, l, w) && l.t < NENTRIES
    ensures Pte(n, Place(x)) == if x == At(l) then w else Pte(m, Place(x))
  {
    PlaceAt(l);
    AtPlace(x);
  }

  /** A second name for a page, or a new protection. */
  lemma MapShows(m: Mem, n: Mem, s: C.State, code: Word -> nat, l: Loc, w: Word, src: Loc)
    requires Shows(m, s, code) && InRange(m, l) && Updated(m, n, l, w) && w != NULL && n.pgdir == m.pgdir && MappedKept(m, n)
    requires Pte(m, src) != NULL && src.t < NENTRIES && src.d < NPDE && w.frame == Pte(m, src).frame
    ensures Shows(n, C.SetPte(s, At(l), C.Pte(w.frame, W in w.flags, COW in w.flags)), code)
  {
    hide Pte, ShownPage;
    PlaceAt(l);
    PlaceAt(src);
    assert At(src) in s.pt;
    forall x: C.Loc
      ensures Pte(n, Place(x)) == if x == At(l) then w else Pte(m, Place(x))
    {
      EntryShown(m, n, l, w, x);
    }
  }

  lemma UnmapShows(m: Mem, n: Mem, s: C.State, code: Word -> nat, l: Loc)
    requires Shows(m, s, code) && InRange(m, l) && Updated(m, n, l, NULL) && n.pgdir == m.pgdir && MappedKept(m, n)
    ensures Shows(n, C.DropPte(s, At(l)), code)
  {
    hide Pte, ShownPage;
    forall x: C.Loc
      ensures Pte(n, Place(x)) == if x == At(l) then NULL else Pte(m, Place(x))
    {
      EntryShown(m, n, l, NULL, x);
    }
  }

  /** A page nobody maps, zeroed and mapped. */
  lemma AllocShows(m: Mem, n: Mem, s: C.State, code: Word -> nat, l: Loc, w: Word)
    requires Shows(m, s, code) && InRange(m, l) && Updated(m, n, l, w) && w != NULL && n.pgdir == m.pgdir && MappedKept(m, n)
    requires w.frame < |n.phys| && n.phys[w.frame] == ZeroPage() && forall x: Loc | Pte(m, x) != NULL :: Pte(m, x).frame != w.frame
    ensures C.Unused(s, w.frame)
    ensures Shows(n, C.SetZero(s, At(l), W in w.flags, COW in w.flags, w.frame), code)
  {
    hide Pte;
    PlaceAt(l);
    forall x: C.Loc
      ensures Pte(n, Place(x)) == if x == At(l) then w else Pte(m, Place(x))
    {
      EntryShown(m, n, l, w, x);
    }
  }

  lemma StoreShows(m: Mem, n: Mem, s: C.State, code: Word -> nat, l: Loc, i: nat, x: Word)
    requires Shows(m, s, code) && SameAddressSpaces(m, n) && n.pgdir == m.pgdir && Pte(m, l) != NULL && l.t < NENTRIES && l.d < NPDE
    requires i < NENTRIES && Pte(m, l).frame < |m.phys| && |m.phys[Pte(m, l).frame]| == NENTRIES
    requires n.phys == m.phys[Pte(m, l).frame := m.phys[Pte(m, l).frame][i := x]]
    ensures At(l) in s.pt && s.pt[At(l)].ppn in s.mem
    ensures Shows(n, C.SetWord(s, s.pt[At(l)].ppn, i, code(x)), code)
  {
    PlaceAt(l);
    hide Pte;
  }

  /** Nothing mapped has changed. */
  lemma QuietShows(m: Mem, n: Mem, s: C.State, code: Word -> nat)
    requires Shows(m, s, code) && SameAddressSpaces(m, n) && n.pgdir == m.pgdir && MappedKept(m, n)
    ensures Shows(n, s, code)
  {
    hide Pte, ShownPage;
  }

  lemma RemoveShows(m: Mem, n: Mem, s: C.State, code: Word -> nat, e: nat)
    requires Shows(m, s, code) && n.pgdir == m.pgdir - {e} && MappedKept(m, n)
    requires forall x: Loc :: Pte(n, x) == if x.e == e then NULL else Pte(m, x)
    ensures Shows(n, C.RemoveEnv(s, e), code)
  {
    hide Pte, ShownPage;
  }

  lemma SetupShows(m: Mem, n: Mem, s: C.State, code: Word -> nat, c: nat, t: C.State)
    requires Shows(m, s, code) && SameAddressSpaces(m, n) && n.pgdir.Keys == m.pgdir.Keys + {c} && MappedKept(m, n)
    requires t.pt == s.pt && t.mem == s.mem && t.ctl.Keys == s.ctl.Keys + {c}
    ensures Shows(n, t, code)
  {
    hide Pte, ShownPage;
  }

  // ---------------------------------------------------------------- one call of the kernel

  lemma MappedStays(k: Kernel)
    requires k.Valid()
    ensures forall x: Loc | Pte(k.Snap(), x) != NULL :: k.Taken(Pte(k.Snap(), x).frame) && k.kind[Pte(k.Snap(), x).frame].Data?
  {
    forall x: Loc | Pte(k.Snap(), x) != NULL
      ensures k.Taken(Pte(k.Snap(), x).frame)
    {
      F.MappedPageIsTaken(k, x);
    }
  }

  method AllocAt(k: Kernel, l: Loc, perm: set<Flag>, ghost s: C.State, ghost code: Word -> nat) returns (ok: bool, ghost f: nat)
    requires k.Valid() && InRange(k.Snap(), l) && perm <= PTE_SYSCALL && {P, U} <= perm && Shows(k.Snap(), s, code)
    modifies k
    ensures k.Valid()
    ensures ok ==> C.Unused(s, f) && Shows(k.Snap(), C.SetZero(s, At(l), W in perm, COW in perm, f), code)
    ensures !ok ==> |old(k.free)| < 2 && Shows(k.Snap(), s, code)
  {
    hide Shape, Counted, IsChain, Mappers, Pte, Pde, Shows;
    ghost var m := k.Snap();
    f := 0;
    assert k.free != [] ==> k.free[0] in k.free && k.free[0] < |k.phys|;
    MappedStays(k);
    var r := k.EnvPageAlloc(l, Word(0, perm));
    ok := r == E_OK;
    if ok {
      f := old(k.free)[0];
      AllocShows(m, k.Snap(), s, code, l, Word(f, perm));
    } else {
      QuietShows(m, k.Snap(), s, code);
    }
  }

  method MapAt(k: Kernel, src: Loc, dst: Loc, perm: set<Flag>, ghost s: C.State, ghost code: Word -> nat) returns (ok: bool)
    requires k.Valid() && InRange(k.Snap(), src) && InRange(k.Snap(), dst) && P in perm && Shows(k.Snap(), s, code)
    modifies k
    ensures k.Valid()
    ensures ok ==> At(src) in s.pt && Shows(k.Snap(), C.SetPte(s, At(dst), C.Pte(s.pt[At(src)].ppn, W in perm, COW in perm)), code)
    ensures ok ==> Pte(k.Snap(), dst).flags == perm
    ensures !ok ==> Shows(k.Snap(), s, code)
    ensures !ok && At(src) in s.pt && (W in perm ==> s.pt[At(src)].w) ==> |old(k.free)| < 2
  {
    hide Shape, Counted, IsChain, Mappers, Pte, Pde, Shows;
    ghost var m := k.Snap();
    Shown(m, s, code, src);
    MappedStays(k);
    var r := k.EnvPageMap(src, dst, Word(0, perm));
    ok := r == E_OK;
    if ok {
      assert perm + {P} == perm;
      MapShows(m, k.Snap(), s, code, dst, Word(Pte(m, src).frame, perm), src);
    }
  }

  /** What the state says of an entry that is there. */
  lemma Shown(m: Mem, s: C.State, code: Word -> nat, l: Loc)
    requires Shows(m, s, code) && InRange(m, l)
    ensures At(l) in s.pt <==> Pte(m, l) != NULL
    ensures At(l) in s.pt ==> ShownEntry(Pte(m, l), s.pt[At(l)]) && s.pt[At(l)].ppn in s.mem && s.pt[At(l)].ppn < |m.phys|
                              && ShownPage(m.phys[s.pt[At(l)].ppn], s.mem[s.pt[At(l)].ppn], code)
  {
    PlaceAt(l);
  }

  method UnmapAt(k: Kernel, l: Loc, ghost s: C.State, ghost code: Word -> nat)
    requires k.Valid() && InRange(k.Snap(), l) && Shows(k.Snap(), s, code)
    modifies k
    ensures k.Valid() && Shows(k.Snap(), C.DropPte(s, At(l)), code)
  {
    hide Shape, Counted, IsChain, Mappers, Pte, Pde, Unmap, Shows;
    ghost var m := k.Snap();
    MappedStays(k);
    k.PageRemove(l, None);
    UnmapShows(m, k.Snap(), s, code, l);
  }

  method StoreAt(k: Kernel, l: Loc, i: nat, x: Word, ghost s: C.State, ghost code: Word -> nat)
    requires k.Valid() && InRange(k.Snap(), l) && W in Pte(k.Snap(), l).flags && i < NENTRIES && Shows(k.Snap(), s, code)
    modifies k
    ensures k.Valid() && At(l) in s.pt && s.pt[At(l)].ppn in s.mem
    ensures Shows(k.Snap(), C.SetWord(s, s.pt[At(l)].ppn, i, code(x)), code)
  {
    hide Shape, Counted, IsChain, Mappers, Pde, Pte, Shows;
    ghost var m := k.Snap();
    assert Pte(m, l) != NULL;
    F.MappedPageIsTaken(k, l);
    k.Store(l, i, x);
    StoreShows(m, k.Snap(), s, code, l, i, x);
  }

  /** A word read through the tables is the word the state has there. */
  method LoadAt(k: Kernel, l: Loc, i: nat, ghost s: C.State, ghost code: Word -> nat) returns (x: Word)
    requires k.Valid() && InRange(k.Snap(), l) && At(l) in s.pt && i < NENTRIES && Shows(k.Snap(), s, code)
    modifies k
    ensures k.Valid() && Shows(k.Snap(), s, code)
    ensures s.pt[At(l)].ppn in s.mem && code(x) == s.mem[s.pt[At(l)].ppn][i]
  {
    Shown(k.Snap(), s, code, l);
    var page := k.PageLookup(l, None);
    x := k.phys[page.value.frame][i];
  }

  // ---------------------------------------------------------------- boot

  function ZeroPages(npages: nat): (mem: map<nat, C.Page>)
    ensures forall f: nat :: f in mem <==> f < npages
  {
    if npages == 0 then map[] else ZeroPages(npages - 1)[npages - 1 := C.ZeroPage()]
  }

  /** One environment, running, on tables that map nothing. */
  function FirstState(e: nat, npages: nat): C.State {
    C.State(map[], ZeroPages(npages), map[e := C.Ctl(true, e, C.Idle, C.NoFork)])
  }

  lemma FirstShows(m: Mem, n: Mem, e: nat, p: nat, code: Word -> nat)
    requires m.pgdir == map[] && n.pgdir == map[e := p] && SameAddressSpaces(m, n) && code(NULL) == 0
    ensures Shows(n, FirstState(e, |n.phys|), code)
  {
    assert forall x: Loc :: Pte(m, x) == NULL;
  }

  /** page_init and env_setup_vm of the first environment lead where the runs of CowRuns begin;
      only a machine without a free page stops them. */
  method StartFirst(npages: nat, kernelEnd: nat, e: nat, kern: seq<Word>, ghost code: Word -> nat) returns (k: Kernel, ok: bool, ghost s: C.State)
    requires EmptyBelowUtop(kern) && code(NULL) == 0
    ensures k.Valid() && (ok <==> exists p: nat :: p < npages && !BootPage(p, kernelEnd))
    ensures ok ==> C.Boot(s) && C.Inv(s) && Shows(k.Snap(), s, code)
  {
    hide Shape, Counted, IsChain, Mappers, Pde, Pte, Shows, C.Inv;
    k := new Kernel(npages, kernelEnd);
    assert k.free != [] ==> k.free[0] in k.free && !BootPage(k.free[0], kernelEnd);
    ghost var m := k.Snap();
    var r := k.EnvSetupVm(e, kern);
    ok := r == E_OK;
    s := FirstState(e, npages);
    if ok {
      FirstShows(m, k.Snap(), e, k.pgdir[e], code);
      C.EveryRunFromBootIsEager(s, []);
    }
  }

  // ---------------------------------------------------------------- one step of CowRuns

  /** The calls that allocate take the page the kernel has, not one of the caller's choice. */
  function WithPage(op: C.Op, f: nat): C.Op {
    match op
    case User(AllocPage(v, w, cow, _)) => C.User(C.AllocPage(v, w, cow, f))
    case Fault(FaultAlloc(v, _)) => C.Fault(C.FaultAlloc(v, f))
    case Fork(ForkStack(_)) => C.Fork(C.ForkStack(f))
    case ForkV0(EachAlloc(_)) => C.ForkV0(C.EachAlloc(f))
    case _ => op
  }

  /** The tables show what `op` of environment `e` makes of `s`. */
  ghost predicate Shown1(m: Mem, s: C.State, e: nat, op: C.Op, f: nat, code: Word -> nat) {
    var st := C.Step(e, WithPage(op, f));
    C.Inv(s) && C.Enabled(s, st) && Shows(m, C.Next(s, st), code)
  }

  ghost predicate Ready(k: Kernel, s: C.State, ctl: map<C.EnvId, C.Ctl>, e: nat, op: C.Op, code: Word -> nat)
    reads k
  {
    k.Valid() && C.Inv(s) && s.ctl == ctl && C.Enabled(s, C.Step(e, op)) && Shows(k.Snap(), s, code)
  }

  lemma InSpace(m: Mem, s: C.State, code: Word -> nat, e: nat, v: nat)
    requires Shows(m, s, code) && e in s.ctl && v < C.LIMIT
    ensures InRange(m, Place(C.Loc(e, v))) && At(Place(C.Loc(e, v))) == C.Loc(e, v)
  {
    AtPlace(C.Loc(e, v));
    assert e in s.ctl.Keys;
  }

  lemma HasDirectory(m: Mem, s: C.State, code: Word -> nat, e: nat)
    requires Shows(m, s, code)
    ensures e in s.ctl <==> e in m.pgdir
  {
    assert e in s.ctl.Keys <==> e in m.pgdir.Keys;
  }

  /** Apart from what is recorded of where the environment is, `t` is the next state. */
  ghost predicate IsNext(s: C.State, e: nat, op: C.Op, f: nat, t: C.State) {
    var st := C.Step(e, WithPage(op, f));
    C.Inv(s) && C.Enabled(s, st) && SameMemory(t, C.Next(s, st))
  }

  lemma NextIsShown(m: Mem, s: C.State, e: nat, op: C.Op, f: nat, t: C.State, code: Word -> nat)
    requires IsNext(s, e, op, f, t) && Shows(m, t, code)
    ensures Shown1(m, s, e, op, f, code)
  {
    hide C.Inv, C.Enabled, C.Next, Shows;
    SameMemoryShows(m, t, C.Next(s, C.Step(e, WithPage(op, f))), code);
  }

  // ---------------------------------------------------------------- what each step needs of the kernel

  /** A call of the kernel, or a word moved. */
  datatype Need =
    | Nothing
    | Zero(at: C.Loc, w: bool, cow: bool)
    | Share(src: C.Loc, dst: C.Loc, w: bool, cow: bool)
    | Drop(at: C.Loc)
    | Put(at: C.Loc, i: nat)
    | Move(src: C.Loc, dst: C.Loc, i: nat)
    | NewSpace(child: nat)
    | NoSpace

  /** Which call a step is, from where the environment is inside fork and the handler. */
  function NeedOf(e: nat, op: C.Op, c: C.Ctl): Need {
    match op
    case User(u) =>
      (match u
       case Load(_, _) => Nothing
       case Store(v, i, _) => Put(C.Loc(e, v), i)
       case AllocPage(v, w, cow, _) => Zero(C.Loc(e, v), w, cow)
       case UnmapPage(v) => Drop(C.Loc(e, v))
       case Destroy => NoSpace)
    case Fault(h) =>
      var tmp := C.Loc(e, C.PFTEMP);
      (match h
       case FaultAlloc(_, _) => Zero(tmp, true, false)
       case FaultMove => if c.hand.Copying? then Move(C.Loc(e, c.hand.va), tmp, c.hand.k) else Nothing
       case FaultMap => if c.hand.Copying? then Share(tmp, C.Loc(e, c.hand.va), true, false) else Nothing
       case FaultUnmap => Drop(tmp))
    case Fork(k) =>
      (match k
       case Exofork(child) => NewSpace(child)
       case DupReadOnly => if c.fork.Dup? then Share(C.Loc(e, c.fork.pn), C.Loc(c.fork.child, c.fork.pn), false, false) else Nothing
       case DupChild => if c.fork.Dup? then Share(C.Loc(e, c.fork.pn), C.Loc(c.fork.child, c.fork.pn), false, true) else Nothing
       case DupParent => if c.fork.Mid? then Share(C.Loc(e, c.fork.pn), C.Loc(e, c.fork.pn), false, true) else Nothing
       case ForkStack(_) => if c.fork.Dup? then Zero(C.Loc(c.fork.child, C.XSTACK), true, false) else Nothing
       case _ => Nothing)
    case ForkV0(z) =>
      (match z
       case ExoforkV0(child) => NewSpace(child)
       case EachShare => if c.fork.Each? then Share(C.Loc(e, c.fork.pn), C.Loc(c.fork.child, c.fork.pn), false, false) else Nothing
       case EachAlloc(_) => if c.fork.Each? then Zero(C.Loc(c.fork.child, c.fork.pn), true, false) else Nothing
       case EachAlias => if c.fork.Fresh? then Share(C.Loc(c.fork.child, c.fork.pn), C.Loc(e, C.UTEMP), true, false) else Nothing
       case EachMove => if c.fork.Moving? then Move(C.Loc(e, c.fork.pn), C.Loc(e, C.UTEMP), c.fork.k) else Nothing
       case EachUnmap => Drop(C.Loc(e, C.UTEMP))
       case _ => Nothing)
  }

  predicate Mapped(s: C.State, x: C.Loc) {
    x in s.pt && s.pt[x].ppn in s.mem && x.e in s.ctl && x.v < C.LIMIT
  }

  predicate Place1(s: C.State, x: C.Loc) {
    x.e in s.ctl && x.v < C.LIMIT
  }

  /** What the invariant of CowRuns gives for the call a step is. */
  ghost predicate NeedOk(s: C.State, e: nat, op: C.Op, f: nat, x: nat)
    requires e in s.ctl
  {
    match NeedOf(e, op, s.ctl[e])
    case Nothing => IsNext(s, e, op, f, s)
    case Zero(at, w, cow) => Place1(s, at) && (C.Unused(s, f) ==> IsNext(s, e, op, f, C.SetZero(s, at, w, cow, f)))
    case Share(src, dst, w, cow) =>
      Mapped(s, src) && Place1(s, dst) && (w ==> s.pt[src].w) && IsNext(s, e, op, f, C.SetPte(s, dst, C.Pte(s.pt[src].ppn, w, cow)))
    case Drop(at) => Place1(s, at) && IsNext(s, e, op, f, C.DropPte(s, at))
    case Put(at, i) =>
      Mapped(s, at) && s.pt[at].w && i < NENTRIES && op.User? && op.u.Store? && (op.u.x == x ==> IsNext(s, e, op, f, C.SetWord(s, s.pt[at].ppn, i, x)))
    case Move(src, dst, i) =>
      Mapped(s, src) && Mapped(s, dst) && s.pt[dst].w && i < NENTRIES &&
      IsNext(s, e, op, f, C.SetWord(s, s.pt[dst].ppn, i, s.mem[s.pt[src].ppn][i]))
    case NewSpace(c) => c !in s.ctl && forall t: C.State | t.pt == s.pt && t.mem == s.mem && t.ctl.Keys == s.ctl.Keys + {c} :: IsNext(s, e, op, f, t)
    case NoSpace => IsNext(s, e, op, f, C.RemoveEnv(s, e))
  }

  lemma UserNeed(s: C.State, e: nat, u: C.UserOp, f: nat, x: nat)
    requires C.Inv(s) && e in s.ctl && C.Enabled(s, C.Step(e, C.User(u)))
    ensures NeedOk(s, e, C.User(u), f, x)
  {
    hide C.HandOk, C.ForkOk, C.Exclusive;
  }

  lemma FaultNeed(s: C.State, e: nat, h: C.FaultOp, f: nat, x: nat)
    requires C.Inv(s) && e in s.ctl && C.Enabled(s, C.Step(e, C.Fault(h)))
    ensures NeedOk(s, e, C.Fault(h), f, x)
  {
    assert C.HandOk(s, e);
    hide C.ForkOk, C.Exclusive;
  }

  lemma ForkNeed(s: C.State, e: nat, k: C.ForkOp, f: nat, x: nat)
    requires C.Inv(s) && e in s.ctl && C.Enabled(s, C.Step(e, C.Fork(k)))
    ensures NeedOk(s, e, C.Fork(k), f, x)
  {
    assert C.ForkOk(s, e);
    hide C.HandOk, C.Exclusive, C.SameSpace, C.ForkedSpace;
  }

  lemma ForkV0Need(s: C.State, e: nat, z: C.ForkV0Op, f: nat, x: nat)
    requires C.Inv(s) && e in s.ctl && C.Enabled(s, C.Step(e, C.ForkV0(z)))
    ensures NeedOk(s, e, C.ForkV0(z), f, x)
  {
    assert C.ForkOk(s, e);
    hide C.HandOk, C.Exclusive, C.SameSpace, C.ForkedSpace;
  }

  lemma StepNeed(s: C.State, e: nat, op: C.Op, x: nat)
    requires C.Inv(s) && C.Enabled(s, C.Step(e, op))
    ensures e in s.ctl && forall f: nat :: NeedOk(s, e, op, f, x)
  {
    assert e in s.ctl;
    forall f: nat
      ensures NeedOk(s, e, op, f, x)
    {
      match op
      case User(u) => UserNeed(s, e, u, f, x);
      case Fault(h) => FaultNeed(s, e, h, f, x);
      case Fork(k) => ForkNeed(s, e, k, f, x);
      case ForkV0(z) => ForkV0Need(s, e, z, f, x);
    }
  }

  // ---------------------------------------------------------------- the kernel makes the step

  /** Carry out the call `need`; `word` is what user code stores, `kern` the directory entries every
      environment shares.  When the kernel refuses, the tables still show `s`. */
  method Serve(k: Kernel, e: nat, need: Need, extra: set<Flag>, word: Word, kern: seq<Word>, ghost s: C.State, ghost code: Word -> nat,
               ghost op: C.Op)
    returns (ok: bool, ghost f: nat, ghost t: C.State)
    requires k.Valid() && Shows(k.Snap(), s, code) && e in s.ctl && need == NeedOf(e, op, s.ctl[e])
    requires forall g: nat :: NeedOk(s, e, op, g, code(word))
    requires (op.User? && op.u.Store? ==> op.u.x == code(word)) && EmptyBelowUtop(kern) && extra <= {PCD, PWT}
    modifies k
    ensures k.Valid()
    ensures ok && need.Share? ==> Pte(k.Snap(), Place(need.dst)).flags * {PCD, PWT} == extra
    ensures if ok then IsNext(s, e, op, f, t) && Shows(k.Snap(), t, code) else |old(k.free)| < 2 && Shows(k.Snap(), s, code)
  {
    hide Shows, C.Unused, Shape, Counted, IsChain, Mappers, Pde, Pte, IsNext, NeedOf, Place, C.Inv, C.Enabled, C.Next, WithPage;
    ok, f, t := true, 0, s;
    assert NeedOk(s, e, op, f, code(word));
    match need
    case Nothing =>
    case Zero(at, w, cow) =>
      InSpace(k.Snap(), s, code, at.e, at.v);
      ok, f := AllocAt(k, Place(at), {P, U} + (if w then {W} else {}) + (if cow then {COW} else {}), s, code);
      assert NeedOk(s, e, op, f, code(word));
      t := C.SetZero(s, at, w, cow, f);
    case Share(src, dst, w, cow) =>
      InSpace(k.Snap(), s, code, src.e, src.v);
      InSpace(k.Snap(), s, code, dst.e, dst.v);
      ok := MapAt(k, Place(src), Place(dst), {P, U} + (if w then {W} else {}) + (if cow then {COW} else {}) + extra, s, code);
      t := C.SetPte(s, dst, C.Pte(s.pt[src].ppn, w, cow));
    case Drop(at) =>
      InSpace(k.Snap(), s, code, at.e, at.v);
      UnmapAt(k, Place(at), s, code);
      t := C.DropPte(s, at);
    case Put(at, i) =>
      InSpace(k.Snap(), s, code, at.e, at.v);
      Shown(k.Snap(), s, code, Place(at));
      StoreAt(k, Place(at), i, word, s, code);
      t := C.SetWord(s, s.pt[at].ppn, i, code(word));
    case Move(src, dst, i) =>
      InSpace(k.Snap(), s, code, src.e, src.v);
      InSpace(k.Snap(), s, code, dst.e, dst.v);
      var x := LoadAt(k, Place(src), i, s, code);
      Shown(k.Snap(), s, code, Place(dst));
      StoreAt(k, Place(dst), i, x, s, code);
      t := C.SetWord(s, s.pt[dst].ppn, i, code(x));
    case NewSpace(c) =>
      ok := NewSpaceAt(k, c, kern, s, code);
      t := s.(ctl := s.ctl[c := C.Ctl(false, e, C.Idle, C.NoFork)]);
      assert t.ctl.Keys == s.ctl.Keys + {c};
    case NoSpace =>
      FreeSpaceAt(k, e, s, code);
      t := C.RemoveEnv(s, e);
  }

  method NewSpaceAt(k: Kernel, c: nat, kern: seq<Word>, ghost s: C.State, ghost code: Word -> nat) returns (ok: bool)
    requires k.Valid() && Shows(k.Snap(), s, code) && c !in s.ctl && EmptyBelowUtop(kern)
    modifies k
    ensures k.Valid()
    ensures ok ==> forall t: C.State | t.pt == s.pt && t.mem == s.mem && t.ctl.Keys == s.ctl.Keys + {c} :: Shows(k.Snap(), t, code)
    ensures !ok ==> |old(k.free)| < 2 && Shows(k.Snap(), s, code)
  {
    hide Shows, Shape, Counted, IsChain, Mappers, Pde, Pte;
    ghost var m := k.Snap();
    HasDirectory(m, s, code, c);
    MappedStays(k);
    var r := k.EnvSetupVm(c, kern);
    ok := r == E_OK;
    if ok {
      forall t: C.State | t.pt == s.pt && t.mem == s.mem && t.ctl.Keys == s.ctl.Keys + {c}
        ensures Shows(k.Snap(), t, code)
      {
        SetupShows(m, k.Snap(), s, code, c, t);
      }
    }
  }

  method FreeSpaceAt(k: Kernel, e: nat, ghost s: C.State, ghost code: Word -> nat)
    requires k.Valid() && Shows(k.Snap(), s, code) && e in s.ctl
    modifies k
    ensures k.Valid() && Shows(k.Snap(), C.RemoveEnv(s, e), code)
  {
    hide Shows, Shape, Counted, IsChain, Mappers, Pde, Pte;
    ghost var m := k.Snap();
    HasDirectory(m, s, code, e);
    MappedStays(k);
    k.EnvFree(e);
    RemoveShows(m, k.Snap(), s, code, e);
  }

  /** MAIN RESULT: whatever step CowRuns takes, the kernel takes it on the tables, or, with fewer than
      two pages left, may refuse and leave everything as it was.  `ctl` is where the environments are
      in their library. */
  method Perform(k: Kernel, e: nat, op: C.Op, ctl: map<C.EnvId, C.Ctl>, word: Word, kern: seq<Word>, ghost s: C.State, ghost code: Word -> nat)
    returns (ok: bool, ghost f: nat)
    requires Ready(k, s, ctl, e, op, code) && (op.User? && op.u.Store? ==> op.u.x == code(word)) && EmptyBelowUtop(kern)
    modifies k
    ensures k.Valid()
    ensures ok ==> Shown1(k.Snap(), s, e, op, f, code)
    ensures e in ctl && (ok && NeedOf(e, op, ctl[e]).Share? && (op.Fork? || op.ForkV0?) ==>
              var need := NeedOf(e, op, ctl[e]);
              Pte(k.Snap(), Place(need.dst)).flags * {PCD, PWT} == F.Io(old(Pte(k.Snap(), Place(need.src)))))
    ensures !ok ==> |old(k.free)| < 2 && Shows(k.Snap(), s, code)
  {
    hide Shows, C.Inv, C.Enabled, NeedOk, Shown1, Shape, Counted, IsChain, Mappers, Pde, Pte;
    StepNeed(s, e, op, code(word));
    var need := NeedOf(e, op, ctl[e]);
    var extra: set<Flag> := {};
    if need.Share? && (op.Fork? || op.ForkV0?) {
      extra := CacheBits(k, need.src, s, code, e, op, code(word));
    }
    ghost var t;
    ok, f, t := Serve(k, e, need, extra, word, kern, s, code, op);
    if ok {
      NextIsShown(k.Snap(), s, e, op, f, t, code);
    }
  }

  /** The cache bits duppage and dup_or_share copy from the parent's entry. */
  method CacheBits(k: Kernel, src: C.Loc, ghost s: C.State, ghost code: Word -> nat, ghost e: nat, ghost op: C.Op, ghost x: nat)
    returns (extra: set<Flag>)
    requires k.Valid() && Shows(k.Snap(), s, code) && e in s.ctl && NeedOk(s, e, op, 0, x)
    requires NeedOf(e, op, s.ctl[e]).Share? && NeedOf(e, op, s.ctl[e]).src == src
    modifies k
    ensures unchanged(k) && extra <= {PCD, PWT} && extra == F.Io(Pte(k.Snap(), Place(src)))
  {
    hide Shows, IsNext, NeedOf, Shape, Counted, IsChain, Mappers, Pde, Pte, Place;
    InSpace(k.Snap(), s, code, src.e, src.v);
    var page := k.PageLookup(Place(src), None);
    extra := if page.Some? then F.Io(page.value) else {};
  }
}
