/** Copy-on-write fork under every interleaving of environments.

    The state is what the system calls of kern/syscall.c leave behind: one page-table
    entry per (environment, page number), and the words of each physical page.  A step is
    one user instruction or one system call, so other environments run between any two
    calls of `fork`, of the page-fault handler and of `fork_v0`, and the parent itself may
    fault in the middle of its own `fork`.

    The reference is a machine in which every environment owns private pages and `fork`
    copies words.  The main theorem, `EveryRunIsEager`, says that the events of any run
    are events of that machine: every read returns what it would return had every page
    been copied. */
module CowRuns {

  type EnvId = nat
  type Word = nat
  type Page = s: seq<Word> | |s| == PAGE_WORDS witness ZeroPage()

  const PAGE_WORDS: nat := 1024

  function ZeroPage(): seq<Word> {
    seq(PAGE_WORDS, _ => 0)
  }

  // Page numbers, from inc/memlayout.h: UTOP = 0xeec00000, UTEMP = PTSIZE.
  const LIMIT: nat := 0xeec00
  const XSTACK: nat := 0xeebff
  const UTEMP: nat := 0x400
  const PFTEMP: nat := 0x7ff

  /** A place in some environment's address space. */
  datatype Loc = Loc(e: EnvId, v: nat)

  /** Bits of a present user entry that fork and the handler look at. */
  datatype Pte = Pte(ppn: nat, w: bool, cow: bool)

  /** Where an environment is inside `pgfault`. */
  datatype Handler =
    | Idle
    | Copying(va: nat, k: nat)  // PFTEMP allocated, k words moved
    | Mapped(va: nat)           // new page installed, PFTEMP still mapped

  /** Where an environment is inside `fork` or `fork_v0`. */
  datatype Fork =
    | NoFork
    | Dup(child: EnvId, pn: nat)                     // fork: about to look at page pn
    | Mid(child: EnvId, pn: nat, shared: bool)       // fork: between the two sys_page_map calls
    | Stacked(child: EnvId)                          // fork: exception stack allocated
    | Each(child: EnvId, pn: nat)                    // fork_v0: about to look at page pn
    | Fresh(child: EnvId, pn: nat)                   // fork_v0: child page allocated
    | Moving(child: EnvId, pn: nat, k: nat)          // fork_v0: aliased at UTEMP, k words moved

  datatype Ctl = Ctl(runnable: bool, parent: EnvId, hand: Handler, fork: Fork)

  datatype State = State(pt: map<Loc, Pte>, mem: map<nat, Page>, ctl: map<EnvId, Ctl>)

  /** User instructions and the calls an environment makes on its own space. */
  datatype UserOp =
    | Load(v: nat, i: nat)
    | Store(v: nat, i: nat, x: Word)
    | AllocPage(v: nat, w: bool, cow: bool, f: nat)
    | UnmapPage(v: nat)
    | Destroy

  /** The page-fault handler `pgfault`: `FaultMove` moves one word of its `memmove`. */
  datatype FaultOp =
    | FaultAlloc(v: nat, f: nat)
    | FaultMove
    | FaultMap
    | FaultUnmap

  /** `fork`; DupReadOnly, DupChild and DupParent are the three system calls of `duppage`. */
  datatype ForkOp =
    | Exofork(child: EnvId)
    | DupSkip
    | DupReadOnly
    | DupChild
    | DupParent
    | ForkStack(f: nat)
    | ForkRun

  /** `fork_v0`; `EachMove` moves one word of the `memmove` of `dup_or_share`. */
  datatype ForkV0Op =
    | ExoforkV0(child: EnvId)
    | EachSkip
    | EachShare
    | EachAlloc(f: nat)
    | EachAlias
    | EachMove
    | EachUnmap
    | ForkV0Run

  datatype Op = User(u: UserOp) | Fault(h: FaultOp) | Fork(k: ForkOp) | ForkV0(z: ForkV0Op)

  /** One step of environment `e`. */
  datatype Step = Step(e: EnvId, op: Op)

  predicate Unused(s: State, f: nat) {
    f in s.mem && forall l | l in s.pt :: s.pt[l].ppn != f
  }

  predicate Scratch(v: nat) {
    v == UTEMP || v == PFTEMP
  }

  predicate Awake(s: State, e: EnvId) {
    e in s.ctl && s.ctl[e].runnable && s.ctl[e].hand.Idle?
  }

  predicate Outside(s: State, e: EnvId) {
    Awake(s, e) && s.ctl[e].fork.NoFork?
  }

  /** `e` is the child its parent is busy building. */
  predicate Building(s: State, e: EnvId) {
    e in s.ctl && s.ctl[e].parent in s.ctl &&
    var f := s.ctl[s.ctl[e].parent].fork;
    !f.NoFork? && f.child == e
  }

  /** When a step can happen.  User code never maps or touches the two scratch pages, and
      memory is shared through fork only: `sys_page_map` appears in fork and the handler. */
  predicate Enabled(s: State, st: Step) {
    match st.op
    case User(u) => UserEnabled(s, st.e, u)
    case Fault(h) => FaultEnabled(s, st.e, h)
    case Fork(k) => ForkEnabled(s, st.e, k)
    case ForkV0(z) => ForkV0Enabled(s, st.e, z)
  }

  predicate UserEnabled(s: State, e: EnvId, u: UserOp) {
    e in s.ctl &&
    match u
    case Load(v, i) => s.ctl[e].runnable && !Scratch(v) && Loc(e, v) in s.pt && i < PAGE_WORDS
    case Store(v, i, x) =>
      s.ctl[e].runnable && !Scratch(v) && Loc(e, v) in s.pt && i < PAGE_WORDS && s.pt[Loc(e, v)].w
    case AllocPage(v, w, cow, f) => Outside(s, e) && v < LIMIT && !Scratch(v) && Unused(s, f)
    case UnmapPage(v) => Outside(s, e) && v < LIMIT && !Scratch(v)
    case Destroy => !Building(s, e)
  }

  /** The test `(err & FEC_WR) & !(fault_pte & PTE_COW)` of the handler is never true, so a
      write to any page that is present but not writable is copied. */
  predicate FaultEnabled(s: State, e: EnvId, h: FaultOp) {
    e in s.ctl &&
    match h
    case FaultAlloc(v, f) =>
      Awake(s, e) && !Scratch(v) && Loc(e, v) in s.pt && !s.pt[Loc(e, v)].w && Unused(s, f)
    case FaultMove => s.ctl[e].hand.Copying? && s.ctl[e].hand.k < PAGE_WORDS
    case FaultMap => s.ctl[e].hand.Copying? && s.ctl[e].hand.k == PAGE_WORDS
    case FaultUnmap => s.ctl[e].hand.Mapped?
  }

  predicate AtPage(s: State, e: EnvId) {
    Awake(s, e) && s.ctl[e].fork.Dup? && s.ctl[e].fork.pn < LIMIT
  }

  predicate ForkEnabled(s: State, e: EnvId, k: ForkOp) {
    e in s.ctl &&
    match k
    case Exofork(c) => Outside(s, e) && c !in s.ctl
    case DupSkip => AtPage(s, e) && (s.ctl[e].fork.pn == XSTACK || Loc(e, s.ctl[e].fork.pn) !in s.pt)
    case DupReadOnly =>
      AtPage(s, e) && s.ctl[e].fork.pn != XSTACK && Loc(e, s.ctl[e].fork.pn) in s.pt &&
      !s.pt[Loc(e, s.ctl[e].fork.pn)].w && !s.pt[Loc(e, s.ctl[e].fork.pn)].cow
    case DupChild =>
      AtPage(s, e) && s.ctl[e].fork.pn != XSTACK && Loc(e, s.ctl[e].fork.pn) in s.pt &&
      (s.pt[Loc(e, s.ctl[e].fork.pn)].w || s.pt[Loc(e, s.ctl[e].fork.pn)].cow)
    case DupParent => Awake(s, e) && s.ctl[e].fork.Mid?
    case ForkStack(f) => Awake(s, e) && s.ctl[e].fork.Dup? && s.ctl[e].fork.pn == LIMIT && Unused(s, f)
    case ForkRun => Awake(s, e) && s.ctl[e].fork.Stacked?
  }

  predicate AtEach(s: State, e: EnvId) {
    Awake(s, e) && s.ctl[e].fork.Each? && s.ctl[e].fork.pn < LIMIT
  }

  predicate ForkV0Enabled(s: State, e: EnvId, z: ForkV0Op) {
    e in s.ctl &&
    match z
    case ExoforkV0(c) => Outside(s, e) && c !in s.ctl
    case EachSkip => AtEach(s, e) && Loc(e, s.ctl[e].fork.pn) !in s.pt
    case EachShare =>
      AtEach(s, e) && Loc(e, s.ctl[e].fork.pn) in s.pt && !s.pt[Loc(e, s.ctl[e].fork.pn)].w
    case EachAlloc(f) =>
      AtEach(s, e) && Loc(e, s.ctl[e].fork.pn) in s.pt && s.pt[Loc(e, s.ctl[e].fork.pn)].w && Unused(s, f)
    case EachAlias => Awake(s, e) && s.ctl[e].fork.Fresh?
    case EachMove => Awake(s, e) && s.ctl[e].fork.Moving? && s.ctl[e].fork.k < PAGE_WORDS
    case EachUnmap => Awake(s, e) && s.ctl[e].fork.Moving? && s.ctl[e].fork.k == PAGE_WORDS
    case ForkV0Run => Awake(s, e) && s.ctl[e].fork.Each? && s.ctl[e].fork.pn == LIMIT
  }

  // ---------------------------------------------------------------- effects

  function SetPte(s: State, l: Loc, p: Pte): State {
    s.(pt := s.pt[l := p])
  }

  function DropPte(s: State, l: Loc): State {
    s.(pt := s.pt - {l})
  }

  function SetHand(s: State, e: EnvId, h: Handler): State
    requires e in s.ctl
  {
    s.(ctl := s.ctl[e := s.ctl[e].(hand := h)])
  }

  function SetFork(s: State, e: EnvId, f: Fork): State
    requires e in s.ctl
  {
    s.(ctl := s.ctl[e := s.ctl[e].(fork := f)])
  }

  /** Map a zeroed page, as `sys_page_alloc` does. */
  function SetZero(s: State, l: Loc, w: bool, cow: bool, f: nat): State {
    s.(pt := s.pt[l := Pte(f, w, cow)], mem := s.mem[f := ZeroPage()])
  }

  function SetWord(s: State, f: nat, i: nat, x: Word): State
    requires f in s.mem && i < PAGE_WORDS
  {
    s.(mem := s.mem[f := s.mem[f][i := x]])
  }

  /** A new environment with an empty space, not yet runnable, and its parent entering `f`. */
  function AddChild(s: State, e: EnvId, c: EnvId, f: Fork): State
    requires e in s.ctl && e != c
  {
    s.(ctl := s.ctl[c := Ctl(false, e, Idle, NoFork)][e := s.ctl[e].(fork := f)])
  }

  function StartChild(s: State, e: EnvId, c: EnvId): State
    requires e in s.ctl && c in s.ctl && e != c
  {
    s.(ctl := s.ctl[c := s.ctl[c].(runnable := true)][e := s.ctl[e].(fork := NoFork)])
  }

  /** What is left after `env_free`. */
  function RemoveEnv(s: State, e: EnvId): State {
    State(map l | l in s.pt && l.e != e :: s.pt[l], s.mem, s.ctl - {e})
  }

  function Next(s: State, st: Step): State
    requires Inv(s) && Enabled(s, st)
  {
    match st.op
    case User(u) => UserNext(s, st.e, u)
    case Fault(h) => FaultNext(s, st.e, h)
    case Fork(k) => ForkNext(s, st.e, k)
    case ForkV0(z) => ForkV0Next(s, st.e, z)
  }

  function UserNext(s: State, e: EnvId, u: UserOp): State
    requires MappedIn(s) && UserEnabled(s, e, u)
  {
    match u
    case Load(_, _) => s
    case Store(v, i, x) => SetWord(s, s.pt[Loc(e, v)].ppn, i, x)
    case AllocPage(v, w, cow, f) => SetZero(s, Loc(e, v), w, cow, f)
    case UnmapPage(v) => DropPte(s, Loc(e, v))
    case Destroy => RemoveEnv(s, e)
  }

  function FaultNext(s: State, e: EnvId, h: FaultOp): State
    requires MappedIn(s) && FaultEnabled(s, e, h) && HandOk(s, e)
  {
    match h
    case FaultAlloc(v, f) => SetHand(SetZero(s, Loc(e, PFTEMP), true, false, f), e, Copying(v, 0))
    case FaultMove =>
      var v, k := s.ctl[e].hand.va, s.ctl[e].hand.k;
      SetHand(SetWord(s, s.pt[Loc(e, PFTEMP)].ppn, k, s.mem[s.pt[Loc(e, v)].ppn][k]), e, Copying(v, k + 1))
    case FaultMap =>
      var v := s.ctl[e].hand.va;
      SetHand(SetPte(s, Loc(e, v), Pte(s.pt[Loc(e, PFTEMP)].ppn, true, false)), e, Mapped(v))
    case FaultUnmap => SetHand(DropPte(s, Loc(e, PFTEMP)), e, Idle)
  }

  function ForkNext(s: State, e: EnvId, k: ForkOp): State
    requires MappedIn(s) && ForkEnabled(s, e, k) && ForkOk(s, e)
  {
    match k
    case Exofork(c) => AddChild(s, e, c, Dup(c, 0))
    case DupSkip => SetFork(s, e, Dup(s.ctl[e].fork.child, s.ctl[e].fork.pn + 1))
    case DupReadOnly =>
      var c, pn := s.ctl[e].fork.child, s.ctl[e].fork.pn;
      SetFork(SetPte(s, Loc(c, pn), Pte(s.pt[Loc(e, pn)].ppn, false, false)), e, Dup(c, pn + 1))
    case DupChild =>
      var c, pn := s.ctl[e].fork.child, s.ctl[e].fork.pn;
      SetFork(SetPte(s, Loc(c, pn), Pte(s.pt[Loc(e, pn)].ppn, false, true)), e, Mid(c, pn, s.pt[Loc(e, pn)].w))
    case DupParent =>
      var c, pn := s.ctl[e].fork.child, s.ctl[e].fork.pn;
      SetFork(SetPte(s, Loc(e, pn), Pte(s.pt[Loc(e, pn)].ppn, false, true)), e, Dup(c, pn + 1))
    case ForkStack(f) =>
      var c := s.ctl[e].fork.child;
      SetFork(SetZero(s, Loc(c, XSTACK), true, false, f), e, Stacked(c))
    case ForkRun => StartChild(s, e, s.ctl[e].fork.child)
  }

  function ForkV0Next(s: State, e: EnvId, z: ForkV0Op): State
    requires MappedIn(s) && ForkV0Enabled(s, e, z) && ForkOk(s, e)
  {
    match z
    case ExoforkV0(c) => AddChild(s, e, c, Each(c, 0))
    case EachSkip => SetFork(s, e, Each(s.ctl[e].fork.child, s.ctl[e].fork.pn + 1))
    case EachShare =>
      var c, pn := s.ctl[e].fork.child, s.ctl[e].fork.pn;
      SetFork(SetPte(s, Loc(c, pn), Pte(s.pt[Loc(e, pn)].ppn, false, false)), e, Each(c, pn + 1))
    case EachAlloc(f) =>
      var c, pn := s.ctl[e].fork.child, s.ctl[e].fork.pn;
      SetFork(SetZero(s, Loc(c, pn), true, false, f), e, Fresh(c, pn))
    case EachAlias =>
      var c, pn := s.ctl[e].fork.child, s.ctl[e].fork.pn;
      SetFork(SetPte(s, Loc(e, UTEMP), Pte(s.pt[Loc(c, pn)].ppn, true, false)), e, Moving(c, pn, 0))
    case EachMove =>
      var c, pn, k := s.ctl[e].fork.child, s.ctl[e].fork.pn, s.ctl[e].fork.k;
      SetFork(SetWord(s, s.pt[Loc(e, UTEMP)].ppn, k, s.mem[s.pt[Loc(e, pn)].ppn][k]), e, Moving(c, pn, k + 1))
    case EachUnmap =>
      SetFork(DropPte(s, Loc(e, UTEMP)), e, Each(s.ctl[e].fork.child, s.ctl[e].fork.pn + 1))
    case ForkV0Run => StartChild(s, e, s.ctl[e].fork.child)
  }

  // ---------------------------------------------------------------- invariant

  predicate MappedIn(s: State) {
    forall l | l in s.pt :: l.e in s.ctl && l.v < LIMIT && s.pt[l].ppn in s.mem
  }

  predicate HandOk(s: State, e: EnvId)
    requires e in s.ctl && MappedIn(s)
  {
    match s.ctl[e].hand
    case Idle => Loc(e, PFTEMP) !in s.pt
    case Copying(va, k) => s.ctl[e].runnable && CopyingOk(s, Loc(e, PFTEMP), Loc(e, va), k)
    case Mapped(va) => s.ctl[e].runnable && MappedOk(s, Loc(e, PFTEMP), Loc(e, va))
  }

  predicate CopyingOk(s: State, tmp: Loc, l: Loc, k: nat)
    requires MappedIn(s)
  {
    !Scratch(l.v) && tmp in s.pt && s.pt[tmp].w && l in s.pt && !s.pt[l].w && k <= PAGE_WORDS &&
    s.mem[s.pt[tmp].ppn][..k] == s.mem[s.pt[l].ppn][..k]
  }

  predicate MappedOk(s: State, tmp: Loc, l: Loc) {
    !Scratch(l.v) && tmp in s.pt && l in s.pt && s.pt[tmp].w && s.pt[l].w && !s.pt[l].cow && s.pt[tmp].ppn == s.pt[l].ppn
  }

  /** Every user page of `e` numbered below `pn`, except `skip`, is mapped in `c`, and `c` has no other. */
  predicate SameSpace(s: State, e: EnvId, c: EnvId, pn: nat, skip: nat) {
    forall v :: 0 <= v < LIMIT && !Scratch(v) ==> (Loc(c, v) in s.pt <==> v < pn && v != skip && Loc(e, v) in s.pt)
  }

  /** The finished child: every user page of the parent, and an exception stack of its own. */
  predicate ForkedSpace(s: State, e: EnvId, c: EnvId) {
    forall v :: 0 <= v < LIMIT && !Scratch(v) ==> (Loc(c, v) in s.pt <==> v == XSTACK || Loc(e, v) in s.pt)
  }

  predicate ForkOk(s: State, e: EnvId)
    requires e in s.ctl && MappedIn(s)
  {
    && (!s.ctl[e].fork.Moving? ==> Loc(e, UTEMP) !in s.pt)
    && (!s.ctl[e].fork.NoFork? ==> FamilyOk(s, e, s.ctl[e].fork.child))
    && ProgressOk(s, e, s.ctl[e].fork)
  }

  /** A child under construction is untouched by anyone else. */
  predicate FamilyOk(s: State, e: EnvId, c: EnvId)
    requires e in s.ctl
  {
    s.ctl[e].runnable && c != e && c in s.ctl && s.ctl[c] == Ctl(false, e, Idle, NoFork)
  }

  predicate ProgressOk(s: State, e: EnvId, f: Fork)
    requires MappedIn(s)
  {
    match f
    case NoFork => true
    case Dup(c, pn) => pn <= LIMIT && SameSpace(s, e, c, pn, XSTACK)
    case Mid(c, pn, shared) =>
      pn < LIMIT && pn != XSTACK && !Scratch(pn) && SameSpace(s, e, c, pn + 1, XSTACK) &&
      Loc(e, pn) in s.pt && Loc(c, pn) in s.pt && !s.pt[Loc(c, pn)].w &&
      (shared ==> s.pt[Loc(e, pn)].w && s.pt[Loc(e, pn)].ppn == s.pt[Loc(c, pn)].ppn)
    case Stacked(c) => ForkedSpace(s, e, c) && Loc(c, XSTACK) in s.pt && s.pt[Loc(c, XSTACK)].w
    case Each(c, pn) => pn <= LIMIT && SameSpace(s, e, c, pn, LIMIT)
    case Fresh(c, pn) =>
      pn < LIMIT && !Scratch(pn) && SameSpace(s, e, c, pn + 1, LIMIT) && WritableInBoth(s, e, c, pn)
    case Moving(c, pn, k) =>
      pn < LIMIT && !Scratch(pn) && k <= PAGE_WORDS && SameSpace(s, e, c, pn + 1, LIMIT) &&
      WritableInBoth(s, e, c, pn) && Loc(e, UTEMP) in s.pt && s.pt[Loc(e, UTEMP)].w &&
      s.pt[Loc(e, UTEMP)].ppn == s.pt[Loc(c, pn)].ppn
  }

  predicate WritableInBoth(s: State, e: EnvId, c: EnvId, pn: nat) {
    Loc(e, pn) in s.pt && Loc(c, pn) in s.pt && s.pt[Loc(e, pn)].w && s.pt[Loc(c, pn)].w
  }

  /** The only ways a page mapped writable at `l` can have a second mapping `m`: the handler's
      PFTEMP alias, fork_v0's UTEMP alias, and the page fork has given the child but not yet
      taken away from the parent. */
  predicate Alias(s: State, l: Loc, m: Loc) {
    || (l.e == m.e && l.e in s.ctl && s.ctl[l.e].hand.Mapped? &&
        ((l.v == PFTEMP && m.v == s.ctl[l.e].hand.va) || (m.v == PFTEMP && l.v == s.ctl[l.e].hand.va)))
    || (l.e in s.ctl && s.ctl[l.e].fork == Mid(m.e, l.v, true) && m.v == l.v)
    || (l.e in s.ctl && s.ctl[l.e].fork.Moving? && l.v == UTEMP && m == Loc(s.ctl[l.e].fork.child, s.ctl[l.e].fork.pn))
    || (m.e in s.ctl && s.ctl[m.e].fork.Moving? && m.v == UTEMP && l == Loc(s.ctl[m.e].fork.child, s.ctl[m.e].fork.pn))
  }

  /** A physical page mapped writable has exactly one mapping, apart from those aliases. */
  predicate Exclusive(s: State) {
    forall l, m | l in s.pt && m in s.pt && l != m && s.pt[l].ppn == s.pt[m].ppn && s.pt[l].w :: Alias(s, l, m)
  }

  predicate Inv(s: State) {
    && MappedIn(s)
    && (forall e | e in s.ctl :: HandOk(s, e))
    && (forall e | e in s.ctl :: ForkOk(s, e))
    && Exclusive(s)
  }

  // ---------------------------------------------------------------- the invariant is kept

  /** `b` is neither the stepping environment nor its child. */
  predicate Bystander(s: State, e: EnvId, b: EnvId)
    requires e in s.ctl
  {
    b != e && (!s.ctl[e].fork.NoFork? ==> b != s.ctl[e].fork.child)
  }

  /** What a step of `e` leaves alone. */
  ghost predicate Local(s: State, t: State, e: EnvId)
    requires e in s.ctl
  {
    && MappedIn(t)
    && (forall l: Loc | Bystander(s, e, l.e) && l.e in s.ctl ::
          (l in s.pt <==> l in t.pt) && (l in s.pt ==> s.pt[l] == t.pt[l]))
    && (forall b | b in s.ctl && Bystander(s, e, b) :: b in t.ctl && s.ctl[b] == t.ctl[b])
  }

  lemma BystanderFork(s: State, t: State, e: EnvId, b: EnvId)
    requires Inv(s) && e in s.ctl && !Building(s, e) && Local(s, t, e) && b in s.ctl && Bystander(s, e, b)
    ensures ForkOk(t, b)
  {
    if !s.ctl[b].fork.NoFork? {
      assert ForkOk(s, b) && ForkOk(s, e);
      assert Bystander(s, e, s.ctl[b].fork.child);
    }
  }

  lemma UserLocal(s: State, e: EnvId, u: UserOp)
    requires Inv(s) && UserEnabled(s, e, u)
    ensures Local(s, UserNext(s, e, u), e)
  {
  }

  lemma FaultLocal(s: State, e: EnvId, h: FaultOp)
    requires Inv(s) && FaultEnabled(s, e, h)
    ensures Local(s, FaultNext(s, e, h), e)
  {
  }

  lemma ForkLocal(s: State, e: EnvId, k: ForkOp)
    requires Inv(s) && ForkEnabled(s, e, k)
    ensures Local(s, ForkNext(s, e, k), e)
  {
    assert MappedIn(s) && ForkOk(s, e);
    hide Inv, HandOk, SameSpace, ForkedSpace, Unused;
  }

  lemma ForkV0Local(s: State, e: EnvId, z: ForkV0Op)
    requires Inv(s) && ForkV0Enabled(s, e, z)
    ensures Local(s, ForkV0Next(s, e, z), e)
  {
  }


  /** The pages a handler is reading from and writing to. */
  predicate InUse(s: State, b: EnvId, f: nat) {
    b in s.ctl && s.ctl[b].hand.Copying? &&
    ((Loc(b, PFTEMP) in s.pt && s.pt[Loc(b, PFTEMP)].ppn == f) ||
     (Loc(b, s.ctl[b].hand.va) in s.pt && s.pt[Loc(b, s.ctl[b].hand.va)].ppn == f))
  }

  /** While a handler copies, nobody else can write its source or its destination. */
  lemma CopyIsStable(s: State, b: EnvId, l: Loc)
    requires Inv(s) && l in s.pt && s.pt[l].w && InUse(s, b, s.pt[l].ppn)
    ensures l == Loc(b, PFTEMP) && s.pt[l].ppn != s.pt[Loc(b, s.ctl[b].hand.va)].ppn
  {
    hide SameSpace, ForkedSpace;
    assert HandOk(s, b) && ForkOk(s, b);
    assert l.e in s.ctl && ForkOk(s, l.e);
  }

  /** A step of `e` changes no page that another environment's handler is copying. */
  ghost predicate CopiesKept(s: State, t: State, e: EnvId) {
    forall b, f | f in s.mem && b != e && InUse(s, b, f) :: f in t.mem && s.mem[f] == t.mem[f]
  }

  lemma BystanderHand(s: State, t: State, e: EnvId, b: EnvId)
    requires Inv(s) && e in s.ctl && Local(s, t, e) && CopiesKept(s, t, e) && b in s.ctl && Bystander(s, e, b)
    ensures HandOk(t, b)
  {
    assert HandOk(s, b);
    if s.ctl[b].hand.Copying? {
      assert InUse(s, b, s.pt[Loc(b, PFTEMP)].ppn) && InUse(s, b, s.pt[Loc(b, s.ctl[b].hand.va)].ppn);
    }
  }

  lemma UserCopiesKept(s: State, e: EnvId, u: UserOp)
    requires Inv(s) && UserEnabled(s, e, u)
    ensures CopiesKept(s, UserNext(s, e, u), e)
  {
    var t := UserNext(s, e, u);
    assert HandOk(s, e) && ForkOk(s, e);
    forall b, f | f in s.mem && b != e && InUse(s, b, f)
      ensures f in t.mem && s.mem[f] == t.mem[f]
    {
      forall l | l in s.pt && s.pt[l].w && s.pt[l].ppn == f
        ensures l.e == b
      {
        CopyIsStable(s, b, l);
      }
    }
  }

  lemma UserKeepsOwnHand(s: State, e: EnvId, u: UserOp, b: EnvId)
    requires Inv(s) && UserEnabled(s, e, u)
    requires b in UserNext(s, e, u).ctl && (b in s.ctl ==> !Bystander(s, e, b))
    requires MappedIn(UserNext(s, e, u))
    ensures HandOk(UserNext(s, e, u), b)
  {
    assert ForkOk(s, e) && HandOk(s, e);
    assert b in s.ctl ==> HandOk(s, b);
    match u
    case Store(v, i, x) =>
      if InUse(s, e, s.pt[Loc(e, v)].ppn) {
        CopyIsStable(s, e, Loc(e, v));
      }
    case _ =>
  }

  lemma UserKeepsHand(s: State, e: EnvId, u: UserOp, b: EnvId)
    requires Inv(s) && UserEnabled(s, e, u)
    requires b in UserNext(s, e, u).ctl
    ensures MappedIn(UserNext(s, e, u)) && HandOk(UserNext(s, e, u), b)
  {
    UserLocal(s, e, u);
    if b in s.ctl && Bystander(s, e, b) {
      UserCopiesKept(s, e, u);
      BystanderHand(s, UserNext(s, e, u), e, b);
    } else {
      UserKeepsOwnHand(s, e, u, b);
    }
  }

  lemma FaultCopiesKept(s: State, e: EnvId, h: FaultOp)
    requires Inv(s) && FaultEnabled(s, e, h)
    ensures CopiesKept(s, FaultNext(s, e, h), e)
  {
    var t := FaultNext(s, e, h);
    assert HandOk(s, e) && ForkOk(s, e);
    forall b, f | f in s.mem && b != e && InUse(s, b, f)
      ensures f in t.mem && s.mem[f] == t.mem[f]
    {
      forall l | l in s.pt && s.pt[l].w && s.pt[l].ppn == f
        ensures l.e == b
      {
        CopyIsStable(s, b, l);
      }
    }
  }

  lemma FaultKeepsOwnHand(s: State, e: EnvId, h: FaultOp, b: EnvId)
    requires Inv(s) && FaultEnabled(s, e, h)
    requires b in FaultNext(s, e, h).ctl && (b in s.ctl ==> !Bystander(s, e, b))
    requires MappedIn(FaultNext(s, e, h))
    ensures HandOk(FaultNext(s, e, h), b)
  {
    assert ForkOk(s, e) && HandOk(s, e);
    assert b in s.ctl ==> HandOk(s, b);
    match h
    case FaultMove =>
      CopyIsStable(s, e, Loc(e, PFTEMP));
    case _ =>
  }

  lemma FaultKeepsHand(s: State, e: EnvId, h: FaultOp, b: EnvId)
    requires Inv(s) && FaultEnabled(s, e, h)
    requires b in FaultNext(s, e, h).ctl
    ensures MappedIn(FaultNext(s, e, h)) && HandOk(FaultNext(s, e, h), b)
  {
    FaultLocal(s, e, h);
    if b in s.ctl && Bystander(s, e, b) {
      FaultCopiesKept(s, e, h);
      BystanderHand(s, FaultNext(s, e, h), e, b);
    } else {
      FaultKeepsOwnHand(s, e, h, b);
    }
  }

  lemma ForkCopiesKept(s: State, e: EnvId, k: ForkOp)
    requires Inv(s) && ForkEnabled(s, e, k)
    ensures CopiesKept(s, ForkNext(s, e, k), e)
  {
    var t := ForkNext(s, e, k);
    assert HandOk(s, e) && ForkOk(s, e);
    forall b, f | f in s.mem && b != e && InUse(s, b, f)
      ensures f in t.mem && s.mem[f] == t.mem[f]
    {
      forall l | l in s.pt && s.pt[l].w && s.pt[l].ppn == f
        ensures l.e == b
      {
        CopyIsStable(s, b, l);
      }
    }
  }

  lemma ForkKeepsOwnHand(s: State, e: EnvId, k: ForkOp, b: EnvId)
    requires Inv(s) && ForkEnabled(s, e, k)
    requires b in ForkNext(s, e, k).ctl && (b in s.ctl ==> !Bystander(s, e, b))
    requires MappedIn(ForkNext(s, e, k))
    ensures HandOk(ForkNext(s, e, k), b)
  {
    assert ForkOk(s, e) && HandOk(s, e);
    assert b in s.ctl ==> HandOk(s, b);
  }

  lemma ForkKeepsHand(s: State, e: EnvId, k: ForkOp, b: EnvId)
    requires Inv(s) && ForkEnabled(s, e, k)
    requires b in ForkNext(s, e, k).ctl
    ensures MappedIn(ForkNext(s, e, k)) && HandOk(ForkNext(s, e, k), b)
  {
    ForkLocal(s, e, k);
    if b in s.ctl && Bystander(s, e, b) {
      ForkCopiesKept(s, e, k);
      BystanderHand(s, ForkNext(s, e, k), e, b);
    } else {
      ForkKeepsOwnHand(s, e, k, b);
    }
  }

  lemma ForkV0CopiesKept(s: State, e: EnvId, z: ForkV0Op)
    requires Inv(s) && ForkV0Enabled(s, e, z)
    ensures CopiesKept(s, ForkV0Next(s, e, z), e)
  {
    var t := ForkV0Next(s, e, z);
    assert HandOk(s, e) && ForkOk(s, e);
    forall b, f | f in s.mem && b != e && InUse(s, b, f)
      ensures f in t.mem && s.mem[f] == t.mem[f]
    {
      forall l | l in s.pt && s.pt[l].w && s.pt[l].ppn == f
        ensures l.e == b
      {
        CopyIsStable(s, b, l);
      }
    }
  }

  lemma ForkV0KeepsOwnHand(s: State, e: EnvId, z: ForkV0Op, b: EnvId)
    requires Inv(s) && ForkV0Enabled(s, e, z)
    requires b in ForkV0Next(s, e, z).ctl && (b in s.ctl ==> !Bystander(s, e, b))
    requires MappedIn(ForkV0Next(s, e, z))
    ensures HandOk(ForkV0Next(s, e, z), b)
  {
    assert ForkOk(s, e) && HandOk(s, e);
    assert b in s.ctl ==> HandOk(s, b);
  }

  lemma ForkV0KeepsHand(s: State, e: EnvId, z: ForkV0Op, b: EnvId)
    requires Inv(s) && ForkV0Enabled(s, e, z)
    requires b in ForkV0Next(s, e, z).ctl
    ensures MappedIn(ForkV0Next(s, e, z)) && HandOk(ForkV0Next(s, e, z), b)
  {
    ForkV0Local(s, e, z);
    if b in s.ctl && Bystander(s, e, b) {
      ForkV0CopiesKept(s, e, z);
      BystanderHand(s, ForkV0Next(s, e, z), e, b);
    } else {
      ForkV0KeepsOwnHand(s, e, z, b);
    }
  }

  lemma UserKeepsOwnFork(s: State, e: EnvId, u: UserOp, b: EnvId)
    requires Inv(s) && UserEnabled(s, e, u)
    requires b in UserNext(s, e, u).ctl && (b in s.ctl ==> !Bystander(s, e, b))
    requires MappedIn(UserNext(s, e, u))
    ensures ForkOk(UserNext(s, e, u), b)
  {
    assert ForkOk(s, e) && HandOk(s, e);
    assert b in s.ctl ==> ForkOk(s, b);
  }

  lemma UserKeepsFork(s: State, e: EnvId, u: UserOp, b: EnvId)
    requires Inv(s) && UserEnabled(s, e, u)
    requires b in UserNext(s, e, u).ctl
    ensures MappedIn(UserNext(s, e, u)) && ForkOk(UserNext(s, e, u), b)
  {
    UserLocal(s, e, u);
    if b in s.ctl && Bystander(s, e, b) {
      BystanderFork(s, UserNext(s, e, u), e, b);
    } else {
      UserKeepsOwnFork(s, e, u, b);
    }
  }

  /** The page a handler is filling has no mapping but PFTEMP. */
  lemma TempIsAlone(s: State, e: EnvId, m: Loc)
    requires Inv(s) && e in s.ctl && s.ctl[e].hand.Copying? && m in s.pt && m != Loc(e, PFTEMP)
    ensures Loc(e, PFTEMP) in s.pt && s.pt[Loc(e, PFTEMP)].ppn != s.pt[m].ppn
  {
    hide SameSpace, ForkedSpace, MappedOk;
    var tmp := Loc(e, PFTEMP);
    assert HandOk(s, e) && ForkOk(s, e) && ForkOk(s, m.e);
    assert s.pt[tmp].ppn == s.pt[m].ppn ==> Alias(s, tmp, m);
    hide Inv, HandOk, CopyingOk, WritableInBoth;
  }

  /** No other environment can write a page of a running one, unless fork_v0 is moving it. */
  lemma NoOtherWriter(s: State, e: EnvId, v: nat, l: Loc)
    requires Inv(s) && Awake(s, e) && !s.ctl[e].fork.Moving? && Loc(e, v) in s.pt && l in s.pt && l != Loc(e, v)
    requires s.pt[l].ppn == s.pt[Loc(e, v)].ppn
    ensures !s.pt[l].w
  {
    hide SameSpace, ForkedSpace;
    assert ForkOk(s, e) && HandOk(s, e) && ForkOk(s, l.e);
  }

  /** The page fork_v0 has just allocated in the child has no other mapping. */
  lemma FreshIsAlone(s: State, e: EnvId, m: Loc)
    requires Inv(s) && e in s.ctl && s.ctl[e].fork.Fresh? && m in s.pt
    requires m != Loc(s.ctl[e].fork.child, s.ctl[e].fork.pn)
    ensures Loc(s.ctl[e].fork.child, s.ctl[e].fork.pn) in s.pt
    ensures s.pt[Loc(s.ctl[e].fork.child, s.ctl[e].fork.pn)].ppn != s.pt[m].ppn
  {
    hide SameSpace, ForkedSpace;
    assert ForkOk(s, e) && ForkOk(s, m.e) && HandOk(s, s.ctl[e].fork.child);
  }

  lemma UserKeepsExclusive(s: State, e: EnvId, u: UserOp, l: Loc, m: Loc)
    requires Inv(s) && UserEnabled(s, e, u)
    requires l in UserNext(s, e, u).pt && m in UserNext(s, e, u).pt && l != m
    requires UserNext(s, e, u).pt[l].ppn == UserNext(s, e, u).pt[m].ppn && UserNext(s, e, u).pt[l].w
    ensures Alias(UserNext(s, e, u), l, m)
  {
    hide SameSpace, ForkedSpace, CopyingOk;
    assert ForkOk(s, e) && HandOk(s, e);
  }

  lemma SpaceGrows(s: State, t: State, e: EnvId, c: EnvId, pn: nat, skip: nat)
    requires SameSpace(s, e, c, pn, skip) && t.pt.Keys == s.pt.Keys + {Loc(c, pn)}
    requires pn < LIMIT && pn != skip && Loc(e, pn) in s.pt && e != c
    ensures SameSpace(t, e, c, pn + 1, skip)
  {
  }

  /** The handler touches only its own PFTEMP and pages that were not writable. */
  lemma ForkOkAfterFault(s: State, t: State, e: EnvId)
    requires MappedIn(s) && MappedIn(t) && e in s.ctl && e in t.ctl && ForkOk(s, e)
    requires t.ctl[e].fork == s.ctl[e].fork && t.ctl[e].runnable == s.ctl[e].runnable
    requires forall b | b in s.ctl && b != e :: b in t.ctl && t.ctl[b] == s.ctl[b]
    requires forall l: Loc | l.v != PFTEMP :: l in t.pt <==> l in s.pt
    requires forall l: Loc | l in s.pt && l.v != PFTEMP && (s.pt[l].w || l.e != e) :: t.pt[l] == s.pt[l]
    ensures ForkOk(t, e)
  {
  }

  lemma FaultAdvances(s: State, e: EnvId, h: FaultOp)
    requires MappedIn(s) && FaultEnabled(s, e, h) && HandOk(s, e) && ForkOk(s, e)
    requires MappedIn(FaultNext(s, e, h)) && e in FaultNext(s, e, h).ctl
    ensures ForkOk(FaultNext(s, e, h), e)
  {
    ForkOkAfterFault(s, FaultNext(s, e, h), e);
  }

  lemma FaultKeepsOwnFork(s: State, e: EnvId, h: FaultOp, b: EnvId)
    requires Inv(s) && FaultEnabled(s, e, h)
    requires b in FaultNext(s, e, h).ctl && (b in s.ctl ==> !Bystander(s, e, b))
    requires MappedIn(FaultNext(s, e, h))
    ensures ForkOk(FaultNext(s, e, h), b)
  {
    if b == e {
      FaultAdvances(s, e, h);
    } else {
      assert ForkOk(s, e) && HandOk(s, e);
      assert b in s.ctl ==> ForkOk(s, b);
    }
  }

  lemma FaultKeepsFork(s: State, e: EnvId, h: FaultOp, b: EnvId)
    requires Inv(s) && FaultEnabled(s, e, h)
    requires b in FaultNext(s, e, h).ctl
    ensures MappedIn(FaultNext(s, e, h)) && ForkOk(FaultNext(s, e, h), b)
  {
    FaultLocal(s, e, h);
    if b in s.ctl && Bystander(s, e, b) {
      BystanderFork(s, FaultNext(s, e, h), e, b);
    } else {
      FaultKeepsOwnFork(s, e, h, b);
    }
  }

  lemma FaultKeepsExclusive(s: State, e: EnvId, h: FaultOp, l: Loc, m: Loc)
    requires Inv(s) && FaultEnabled(s, e, h)
    requires l in FaultNext(s, e, h).pt && m in FaultNext(s, e, h).pt && l != m
    requires FaultNext(s, e, h).pt[l].ppn == FaultNext(s, e, h).pt[m].ppn && FaultNext(s, e, h).pt[l].w
    ensures Alias(FaultNext(s, e, h), l, m)
  {
    assert HandOk(s, e) && ForkOk(s, e);
    match h
    case FaultMap =>
      var tmp, at := Loc(e, PFTEMP), Loc(e, s.ctl[e].hand.va);
      if l == tmp || l == at {
        if m != tmp && m != at { TempIsAlone(s, e, m); }
      } else if m == tmp || m == at {
        TempIsAlone(s, e, l);
      } else {
        assert Alias(s, l, m);
      }
    case _ =>
      assert Alias(s, l, m);
  }

  lemma ForkAdvances(s: State, e: EnvId, k: ForkOp)
    requires MappedIn(s) && ForkEnabled(s, e, k) && HandOk(s, e) && ForkOk(s, e)
    requires MappedIn(ForkNext(s, e, k)) && e in ForkNext(s, e, k).ctl
    ensures ForkOk(ForkNext(s, e, k), e)
  {
    match k
    case DupReadOnly =>
      SpaceGrows(s, ForkNext(s, e, k), e, s.ctl[e].fork.child, s.ctl[e].fork.pn, XSTACK);
    case DupChild =>
      SpaceGrows(s, ForkNext(s, e, k), e, s.ctl[e].fork.child, s.ctl[e].fork.pn, XSTACK);
    case _ =>
  }

  lemma ForkKeepsOwnFork(s: State, e: EnvId, k: ForkOp, b: EnvId)
    requires Inv(s) && ForkEnabled(s, e, k)
    requires b in ForkNext(s, e, k).ctl && (b in s.ctl ==> !Bystander(s, e, b))
    requires MappedIn(ForkNext(s, e, k))
    ensures ForkOk(ForkNext(s, e, k), b)
  {
    if b == e {
      ForkAdvances(s, e, k);
    } else {
      assert ForkOk(s, e) && HandOk(s, e);
      assert b in s.ctl ==> ForkOk(s, b);
    }
  }

  lemma ForkKeepsFork(s: State, e: EnvId, k: ForkOp, b: EnvId)
    requires Inv(s) && ForkEnabled(s, e, k)
    requires b in ForkNext(s, e, k).ctl
    ensures MappedIn(ForkNext(s, e, k)) && ForkOk(ForkNext(s, e, k), b)
  {
    ForkLocal(s, e, k);
    if b in s.ctl && Bystander(s, e, b) {
      BystanderFork(s, ForkNext(s, e, k), e, b);
    } else {
      ForkKeepsOwnFork(s, e, k, b);
    }
  }

  lemma ForkKeepsExclusive(s: State, e: EnvId, k: ForkOp, l: Loc, m: Loc)
    requires Inv(s) && ForkEnabled(s, e, k)
    requires l in ForkNext(s, e, k).pt && m in ForkNext(s, e, k).pt && l != m
    requires ForkNext(s, e, k).pt[l].ppn == ForkNext(s, e, k).pt[m].ppn && ForkNext(s, e, k).pt[l].w
    ensures Alias(ForkNext(s, e, k), l, m)
  {
    assert HandOk(s, e) && ForkOk(s, e);
    if k.DupReadOnly? || k.DupChild? || k.DupParent? {
      var c, pn := s.ctl[e].fork.child, s.ctl[e].fork.pn;
      var touched := if k.DupParent? then Loc(e, pn) else Loc(c, pn);
      if m == touched {
        if l != Loc(e, pn) { NoOtherWriter(s, e, pn, l); }
      } else {
        assert Alias(s, l, m);
      }
    } else {
      assert Alias(s, l, m);
    }
  }

  lemma ForkV0Advances(s: State, e: EnvId, z: ForkV0Op)
    requires MappedIn(s) && ForkV0Enabled(s, e, z) && HandOk(s, e) && ForkOk(s, e)
    requires MappedIn(ForkV0Next(s, e, z)) && e in ForkV0Next(s, e, z).ctl
    ensures ForkOk(ForkV0Next(s, e, z), e)
  {
    match z
    case EachShare =>
      SpaceGrows(s, ForkV0Next(s, e, z), e, s.ctl[e].fork.child, s.ctl[e].fork.pn, LIMIT);
    case EachAlloc(f) =>
      SpaceGrows(s, ForkV0Next(s, e, z), e, s.ctl[e].fork.child, s.ctl[e].fork.pn, LIMIT);
    case _ =>
  }

  lemma ForkV0KeepsOwnFork(s: State, e: EnvId, z: ForkV0Op, b: EnvId)
    requires Inv(s) && ForkV0Enabled(s, e, z)
    requires b in ForkV0Next(s, e, z).ctl && (b in s.ctl ==> !Bystander(s, e, b))
    requires MappedIn(ForkV0Next(s, e, z))
    ensures ForkOk(ForkV0Next(s, e, z), b)
  {
    if b == e {
      ForkV0Advances(s, e, z);
    } else {
      assert ForkOk(s, e) && HandOk(s, e);
      assert b in s.ctl ==> ForkOk(s, b);
    }
  }

  lemma ForkV0KeepsFork(s: State, e: EnvId, z: ForkV0Op, b: EnvId)
    requires Inv(s) && ForkV0Enabled(s, e, z)
    requires b in ForkV0Next(s, e, z).ctl
    ensures MappedIn(ForkV0Next(s, e, z)) && ForkOk(ForkV0Next(s, e, z), b)
  {
    ForkV0Local(s, e, z);
    if b in s.ctl && Bystander(s, e, b) {
      BystanderFork(s, ForkV0Next(s, e, z), e, b);
    } else {
      ForkV0KeepsOwnFork(s, e, z, b);
    }
  }

  lemma ForkV0KeepsExclusive(s: State, e: EnvId, z: ForkV0Op, l: Loc, m: Loc)
    requires Inv(s) && ForkV0Enabled(s, e, z)
    requires l in ForkV0Next(s, e, z).pt && m in ForkV0Next(s, e, z).pt && l != m
    requires ForkV0Next(s, e, z).pt[l].ppn == ForkV0Next(s, e, z).pt[m].ppn && ForkV0Next(s, e, z).pt[l].w
    ensures Alias(ForkV0Next(s, e, z), l, m)
  {
    assert HandOk(s, e) && ForkOk(s, e);
    match z
    case EachShare =>
      var c, pn := s.ctl[e].fork.child, s.ctl[e].fork.pn;
      if m == Loc(c, pn) {
        if l != Loc(e, pn) { NoOtherWriter(s, e, pn, l); }
      } else {
        assert Alias(s, l, m);
      }
    case EachAlias =>
      var own, tmp := Loc(s.ctl[e].fork.child, s.ctl[e].fork.pn), Loc(e, UTEMP);
      if l == tmp || l == own {
        if m != tmp && m != own { FreshIsAlone(s, e, m); }
      } else if m == tmp || m == own {
        FreshIsAlone(s, e, l);
      } else {
        assert Alias(s, l, m);
      }
    case _ =>
      assert Alias(s, l, m);
  }

  lemma NextKeepsInv(s: State, st: Step)
    requires Inv(s) && Enabled(s, st)
    ensures Inv(Next(s, st))
  {
    var t := Next(s, st);
    match st.op
    case User(u) =>
      UserLocal(s, st.e, u);
      forall b | b in t.ctl ensures HandOk(t, b) && ForkOk(t, b) {
        UserKeepsHand(s, st.e, u, b);
        UserKeepsFork(s, st.e, u, b);
      }
      forall l, m | l in t.pt && m in t.pt && l != m && t.pt[l].ppn == t.pt[m].ppn && t.pt[l].w ensures Alias(t, l, m) {
        UserKeepsExclusive(s, st.e, u, l, m);
      }
    case Fault(h) =>
      FaultLocal(s, st.e, h);
      forall b | b in t.ctl ensures HandOk(t, b) && ForkOk(t, b) {
        FaultKeepsHand(s, st.e, h, b);
        FaultKeepsFork(s, st.e, h, b);
      }
      forall l, m | l in t.pt && m in t.pt && l != m && t.pt[l].ppn == t.pt[m].ppn && t.pt[l].w ensures Alias(t, l, m) {
        FaultKeepsExclusive(s, st.e, h, l, m);
      }
    case Fork(k) =>
      ForkLocal(s, st.e, k);
      forall b | b in t.ctl ensures HandOk(t, b) && ForkOk(t, b) {
        ForkKeepsHand(s, st.e, k, b);
        ForkKeepsFork(s, st.e, k, b);
      }
      forall l, m | l in t.pt && m in t.pt && l != m && t.pt[l].ppn == t.pt[m].ppn && t.pt[l].w ensures Alias(t, l, m) {
        ForkKeepsExclusive(s, st.e, k, l, m);
      }
    case ForkV0(z) =>
      ForkV0Local(s, st.e, z);
      forall b | b in t.ctl ensures HandOk(t, b) && ForkOk(t, b) {
        ForkV0KeepsHand(s, st.e, z, b);
        ForkV0KeepsFork(s, st.e, z, b);
      }
      forall l, m | l in t.pt && m in t.pt && l != m && t.pt[l].ppn == t.pt[m].ppn && t.pt[l].w ensures Alias(t, l, m) {
        ForkV0KeepsExclusive(s, st.e, z, l, m);
      }
  }

  // ---------------------------------------------------------------- the eager machine

  /** Every environment owns private pages. */
  type Spaces = map<Loc, Page>

  datatype Event =
    | Silent
    | Read(l: Loc, i: nat, x: Word)
    | Wrote(l: Loc, i: nat, x: Word)
    | Zeroed(l: Loc)
    | Dropped(l: Loc)
    | Born(e: EnvId)
    | Gone(e: EnvId)
    | CopiedPage(src: Loc, dst: Loc)
    | CopiedWord(src: Loc, dst: Loc, i: nat)

  /** What the eager machine allows: a read returns the word stored in the reader's own page. */
  predicate Allows(a: Spaces, ev: Event) {
    match ev
    case Read(l, i, x) => l in a && i < PAGE_WORDS && a[l][i] == x
    case Wrote(l, i, x) => l in a && i < PAGE_WORDS
    case CopiedPage(src, dst) => src in a
    case CopiedWord(src, dst, i) => src in a && dst in a && i < PAGE_WORDS
    case _ => true
  }

  function Forget(a: Spaces, e: EnvId): Spaces {
    map l | l in a && l.e != e :: a[l]
  }

  function Effect(a: Spaces, ev: Event): Spaces
    requires Allows(a, ev)
  {
    match ev
    case Silent => a
    case Read(_, _, _) => a
    case Wrote(l, i, x) => a[l := a[l][i := x]]
    case Zeroed(l) => a[l := ZeroPage()]
    case Dropped(l) => a - {l}
    case Born(e) => Forget(a, e)
    case Gone(e) => Forget(a, e)
    case CopiedPage(src, dst) => a[dst := a[src]]
    case CopiedWord(src, dst, i) => a[dst := a[dst][i := a[src][i]]]
  }

  /** The event a step is, seen by someone who believes in eager copies.  The page handed to
      a child while the parent can still write it counts as copied when the parent loses
      that right; any other page counts as copied when the child gets it. */
  function EventOf(s: State, st: Step): Event
    requires Inv(s) && Enabled(s, st)
  {
    match st.op
    case User(u) => UserEvent(s, st.e, u)
    case Fault(h) => Silent
    case Fork(k) => ForkEvent(s, st.e, k)
    case ForkV0(z) => ForkV0Event(s, st.e, z)
  }

  function UserEvent(s: State, e: EnvId, u: UserOp): Event
    requires MappedIn(s) && UserEnabled(s, e, u)
  {
    match u
    case Load(v, i) => Read(Loc(e, v), i, s.mem[s.pt[Loc(e, v)].ppn][i])
    case Store(v, i, x) => Wrote(Loc(e, v), i, x)
    case AllocPage(v, _, _, _) => Zeroed(Loc(e, v))
    case UnmapPage(v) => Dropped(Loc(e, v))
    case Destroy => Gone(e)
  }

  function ForkEvent(s: State, e: EnvId, k: ForkOp): Event
    requires ForkEnabled(s, e, k)
  {
    match k
    case Exofork(c) => Born(c)
    case DupSkip => Silent
    case DupReadOnly => CopiedPage(Loc(e, s.ctl[e].fork.pn), Loc(s.ctl[e].fork.child, s.ctl[e].fork.pn))
    case DupChild =>
      if s.pt[Loc(e, s.ctl[e].fork.pn)].w then Silent
      else CopiedPage(Loc(e, s.ctl[e].fork.pn), Loc(s.ctl[e].fork.child, s.ctl[e].fork.pn))
    case DupParent =>
      if s.ctl[e].fork.shared then CopiedPage(Loc(e, s.ctl[e].fork.pn), Loc(s.ctl[e].fork.child, s.ctl[e].fork.pn))
      else Silent
    case ForkStack(_) => Zeroed(Loc(s.ctl[e].fork.child, XSTACK))
    case ForkRun => Silent
  }

  function ForkV0Event(s: State, e: EnvId, z: ForkV0Op): Event
    requires ForkV0Enabled(s, e, z)
  {
    match z
    case ExoforkV0(c) => Born(c)
    case EachSkip => Silent
    case EachShare => CopiedPage(Loc(e, s.ctl[e].fork.pn), Loc(s.ctl[e].fork.child, s.ctl[e].fork.pn))
    case EachAlloc(_) => Zeroed(Loc(s.ctl[e].fork.child, s.ctl[e].fork.pn))
    case EachAlias => Silent
    case EachMove =>
      CopiedWord(Loc(e, s.ctl[e].fork.pn), Loc(s.ctl[e].fork.child, s.ctl[e].fork.pn), s.ctl[e].fork.k)
    case EachUnmap => Silent
    case ForkV0Run => Silent
  }

  // ---------------------------------------------------------------- refinement

  /** Someone may still read this place: not a scratch alias, not a child whose parent died,
      and not the page a parent has shared but not yet protected. */
  predicate Visible(s: State, l: Loc) {
    && !Scratch(l.v)
    && l.v < LIMIT
    && l.e in s.ctl
    && (s.ctl[l.e].runnable || Building(s, l.e))
    && !(Building(s, l.e) && s.ctl[s.ctl[l.e].parent].fork == Mid(l.e, l.v, true))
  }

  ghost predicate Agrees(s: State, a: Spaces, l: Loc) {
    (l in s.pt <==> l in a) && (l in s.pt && s.pt[l].ppn in s.mem ==> a[l] == s.mem[s.pt[l].ppn])
  }

  /** Both machines hold the same words wherever anybody can look. */
  ghost predicate Rel(s: State, a: Spaces) {
    forall l | Visible(s, l) :: Agrees(s, a, l)
  }

  lemma UserAllowed(s: State, a: Spaces, e: EnvId, u: UserOp)
    requires Inv(s) && Rel(s, a) && UserEnabled(s, e, u)
    ensures Allows(a, UserEvent(s, e, u))
  {
    assert ForkOk(s, e);
    if u.Load? || u.Store? {
      assert Visible(s, Loc(e, u.v));
    }
  }

  lemma ForkAllowed(s: State, a: Spaces, e: EnvId, k: ForkOp)
    requires Inv(s) && Rel(s, a) && ForkEnabled(s, e, k)
    ensures Allows(a, ForkEvent(s, e, k))
  {
    assert ForkOk(s, e) && HandOk(s, e);
    if k.DupReadOnly? || k.DupChild? || k.DupParent? {
      assert Visible(s, Loc(e, s.ctl[e].fork.pn));
    }
  }

  lemma ForkV0Allowed(s: State, a: Spaces, e: EnvId, z: ForkV0Op)
    requires Inv(s) && Rel(s, a) && ForkV0Enabled(s, e, z)
    ensures Allows(a, ForkV0Event(s, e, z))
  {
    assert ForkOk(s, e) && HandOk(s, e);
    if z.EachShare? || z.EachMove? {
      assert Visible(s, Loc(e, s.ctl[e].fork.pn));
      assert Visible(s, Loc(s.ctl[e].fork.child, s.ctl[e].fork.pn));
    }
  }

  lemma UserIsEager(s: State, a: Spaces, e: EnvId, u: UserOp, l: Loc)
    requires Inv(s) && Rel(s, a) && UserEnabled(s, e, u) && Allows(a, UserEvent(s, e, u))
    requires Visible(UserNext(s, e, u), l)
    ensures Agrees(UserNext(s, e, u), Effect(a, UserEvent(s, e, u)), l)
  {
    hide SameSpace, ForkedSpace;
    assert ForkOk(s, e);
    assert Visible(s, l);
    assert ForkOk(s, l.e);
  }

  lemma FaultIsEager(s: State, a: Spaces, e: EnvId, h: FaultOp, l: Loc)
    requires Inv(s) && Rel(s, a) && FaultEnabled(s, e, h)
    requires Visible(FaultNext(s, e, h), l)
    ensures Agrees(FaultNext(s, e, h), a, l)
  {
    hide Exclusive;
    assert HandOk(s, e);
    assert Visible(s, l);
    if h.FaultMove? && l in s.pt {
      TempIsAlone(s, e, l);
    }
  }

  lemma DupIsEager(s: State, a: Spaces, e: EnvId, k: ForkOp, l: Loc)
    requires Inv(s) && Rel(s, a) && ForkEnabled(s, e, k) && Allows(a, ForkEvent(s, e, k))
    requires Visible(ForkNext(s, e, k), l) && (k.DupReadOnly? || k.DupChild? || k.DupParent?)
    ensures Agrees(ForkNext(s, e, k), Effect(a, ForkEvent(s, e, k)), l)
  {
    assert MappedIn(s) && ForkOk(s, e) && (l.e in s.ctl ==> ForkOk(s, l.e));
    hide Inv, HandOk, CopyingOk, MappedOk, WritableInBoth;
    assert Visible(s, Loc(e, l.v));
    if l.e in s.ctl && !(k.DupParent? && s.ctl[e].fork.shared && l == Loc(s.ctl[e].fork.child, s.ctl[e].fork.pn)) {
      assert Visible(s, l);
    }
  }

  lemma AroundDupIsEager(s: State, a: Spaces, e: EnvId, k: ForkOp, l: Loc)
    requires Inv(s) && Rel(s, a) && ForkEnabled(s, e, k) && Allows(a, ForkEvent(s, e, k))
    requires Visible(ForkNext(s, e, k), l) && !(k.DupReadOnly? || k.DupChild? || k.DupParent?)
    ensures Agrees(ForkNext(s, e, k), Effect(a, ForkEvent(s, e, k)), l)
  {
    assert MappedIn(s) && ForkOk(s, e) && (l.e in s.ctl ==> ForkOk(s, l.e));
    hide Inv, HandOk, CopyingOk, MappedOk, WritableInBoth;
    assert Visible(s, Loc(e, l.v));
    if l.e in s.ctl {
      assert Visible(s, l);
    }
  }

  lemma ForkIsEager(s: State, a: Spaces, e: EnvId, k: ForkOp, l: Loc)
    requires Inv(s) && Rel(s, a) && ForkEnabled(s, e, k) && Allows(a, ForkEvent(s, e, k))
    requires Visible(ForkNext(s, e, k), l)
    ensures Agrees(ForkNext(s, e, k), Effect(a, ForkEvent(s, e, k)), l)
  {
    hide Inv, Rel, ForkEnabled, Allows, ForkEvent, Visible, ForkNext, Agrees, Effect;
    if k.DupReadOnly? || k.DupChild? || k.DupParent? {
      DupIsEager(s, a, e, k, l);
    } else {
      AroundDupIsEager(s, a, e, k, l);
    }
  }

  lemma MoveIsEager(s: State, a: Spaces, e: EnvId, z: ForkV0Op, l: Loc)
    requires Inv(s) && Rel(s, a) && ForkV0Enabled(s, e, z) && Allows(a, ForkV0Event(s, e, z))
    requires Visible(ForkV0Next(s, e, z), l) && z.EachMove?
    ensures Agrees(ForkV0Next(s, e, z), Effect(a, ForkV0Event(s, e, z)), l)
  {
    hide SameSpace, ForkedSpace;
    assert ForkOk(s, e) && HandOk(s, e);
    assert Visible(s, Loc(e, l.v));
    if l.e in s.ctl {
      assert ForkOk(s, l.e);
      assert Visible(s, l);
    }
  }

  lemma PageIsEager(s: State, a: Spaces, e: EnvId, z: ForkV0Op, l: Loc)
    requires Inv(s) && Rel(s, a) && ForkV0Enabled(s, e, z) && Allows(a, ForkV0Event(s, e, z))
    requires Visible(ForkV0Next(s, e, z), l) && (z.EachShare? || z.EachAlloc? || z.EachAlias?)
    ensures Agrees(ForkV0Next(s, e, z), Effect(a, ForkV0Event(s, e, z)), l)
  {
    hide Exclusive;
    assert ForkOk(s, e) && HandOk(s, e);
    assert Visible(s, Loc(e, l.v));
    if l.e in s.ctl {
      assert ForkOk(s, l.e);
      assert Visible(s, l);
    }
  }

  lemma RestIsEager(s: State, a: Spaces, e: EnvId, z: ForkV0Op, l: Loc)
    requires Inv(s) && Rel(s, a) && ForkV0Enabled(s, e, z) && Allows(a, ForkV0Event(s, e, z))
    requires Visible(ForkV0Next(s, e, z), l) && (z.ExoforkV0? || z.EachSkip? || z.EachUnmap? || z.ForkV0Run?)
    ensures Agrees(ForkV0Next(s, e, z), Effect(a, ForkV0Event(s, e, z)), l)
  {
    hide Exclusive;
    assert ForkOk(s, e) && HandOk(s, e);
    assert Visible(s, Loc(e, l.v));
    if l.e in s.ctl {
      assert ForkOk(s, l.e);
      assert Visible(s, l);
    }
  }

  lemma ForkV0IsEager(s: State, a: Spaces, e: EnvId, z: ForkV0Op, l: Loc)
    requires Inv(s) && Rel(s, a) && ForkV0Enabled(s, e, z) && Allows(a, ForkV0Event(s, e, z))
    requires Visible(ForkV0Next(s, e, z), l)
    ensures Agrees(ForkV0Next(s, e, z), Effect(a, ForkV0Event(s, e, z)), l)
  {
    hide Inv, Rel, ForkV0Enabled, Allows, ForkV0Event, Visible, ForkV0Next, Agrees, Effect;
    match z
    case EachMove => MoveIsEager(s, a, e, z, l);
    case EachShare => PageIsEager(s, a, e, z, l);
    case EachAlloc(_) => PageIsEager(s, a, e, z, l);
    case EachAlias => PageIsEager(s, a, e, z, l);
    case _ => RestIsEager(s, a, e, z, l);
  }

  /** One step of the real machine is one event of the eager machine, and they go on agreeing. */
  lemma StepIsEager(s: State, a: Spaces, st: Step)
    requires Inv(s) && Rel(s, a) && Enabled(s, st)
    ensures Allows(a, EventOf(s, st)) && Rel(Next(s, st), Effect(a, EventOf(s, st)))
  {
    match st.op
    case User(u) =>
      UserAllowed(s, a, st.e, u);
      forall l | Visible(Next(s, st), l) ensures Agrees(Next(s, st), Effect(a, EventOf(s, st)), l) {
        UserIsEager(s, a, st.e, u, l);
      }
    case Fault(h) =>
      forall l | Visible(Next(s, st), l) ensures Agrees(Next(s, st), a, l) {
        FaultIsEager(s, a, st.e, h, l);
      }
    case Fork(k) =>
      ForkAllowed(s, a, st.e, k);
      forall l | Visible(Next(s, st), l) ensures Agrees(Next(s, st), Effect(a, EventOf(s, st)), l) {
        ForkIsEager(s, a, st.e, k, l);
      }
    case ForkV0(z) =>
      ForkV0Allowed(s, a, st.e, z);
      forall l | Visible(Next(s, st), l) ensures Agrees(Next(s, st), Effect(a, EventOf(s, st)), l) {
        ForkV0IsEager(s, a, st.e, z, l);
      }
  }

  // ---------------------------------------------------------------- runs

  function Go(s: State, st: Step): (t: State)
    requires Inv(s) && Enabled(s, st)
    ensures Inv(t)
  {
    NextKeepsInv(s, st);
    Next(s, st)
  }

  /** `steps` is a run from `s`: any environments, in any order. */
  predicate IsRun(s: State, steps: seq<Step>)
    requires Inv(s)
    decreases |steps|
  {
    |steps| == 0 || (Enabled(s, steps[0]) && IsRun(Go(s, steps[0]), steps[1..]))
  }

  function EventsOf(s: State, steps: seq<Step>): seq<Event>
    requires Inv(s) && IsRun(s, steps)
    decreases |steps|
  {
    if |steps| == 0 then [] else [EventOf(s, steps[0])] + EventsOf(Go(s, steps[0]), steps[1..])
  }

  function Final(s: State, steps: seq<Step>): (t: State)
    requires Inv(s) && IsRun(s, steps)
    ensures Inv(t)
    decreases |steps|
  {
    if |steps| == 0 then s else Final(Go(s, steps[0]), steps[1..])
  }

  /** The eager machine, which knows nothing of frames or permissions, accepts these events. */
  predicate Accepts(a: Spaces, events: seq<Event>)
    decreases |events|
  {
    |events| == 0 || (Allows(a, events[0]) && Accepts(Effect(a, events[0]), events[1..]))
  }

  /** One environment, running, with nothing mapped yet. */
  ghost predicate Boot(s: State) {
    s.pt == map[] && exists e: EnvId :: s.ctl == map[e := Ctl(true, e, Idle, NoFork)]
  }

  /** MAIN RESULT: from any state with the invariant and any eager machine that agrees with
      it, the events of every run are events of the eager machine. */
  lemma {:induction false} EveryRunIsEager(s: State, a: Spaces, steps: seq<Step>)
    requires Inv(s) && Rel(s, a) && IsRun(s, steps)
    ensures Accepts(a, EventsOf(s, steps))
    decreases |steps|
  {
    if |steps| != 0 {
      StepIsEager(s, a, steps[0]);
      var events := EventsOf(s, steps);
      assert events[0] == EventOf(s, steps[0]) && events[1..] == EventsOf(Go(s, steps[0]), steps[1..]);
      EveryRunIsEager(Go(s, steps[0]), Effect(a, EventOf(s, steps[0])), steps[1..]);
    }
  }

  /** MAIN RESULT, from boot. */
  lemma EveryRunFromBootIsEager(s: State, steps: seq<Step>)
    requires Boot(s)
    ensures Inv(s)
    ensures IsRun(s, steps) ==> Accepts(map[], EventsOf(s, steps)) && Exclusive(Final(s, steps))
  {
    if IsRun(s, steps) {
      EveryRunIsEager(s, map[], steps);
    }
  }

  /** When fork lets the child run, the eager child owns a page wherever the parent does, plus
      its exception stack, the two machines agree on every one of them, and the child can read them. */
  lemma ForkLeavesNothingOut(s: State, a: Spaces, e: EnvId, v: nat)
    requires Inv(s) && Rel(s, a) && ForkEnabled(s, e, ForkRun) && v < LIMIT && !Scratch(v)
    ensures Loc(s.ctl[e].fork.child, v) in a <==> v == XSTACK || Loc(e, v) in a
    ensures forall i: nat | i < PAGE_WORDS ::
              Enabled(Next(s, Step(e, Fork(ForkRun))), Step(s.ctl[e].fork.child, User(Load(v, i)))) <==> Loc(s.ctl[e].fork.child, v) in a
    ensures Agrees(s, a, Loc(s.ctl[e].fork.child, v)) && Agrees(s, a, Loc(e, v))
  {
    assert ForkOk(s, e);
    assert Visible(s, Loc(e, v)) && Visible(s, Loc(s.ctl[e].fork.child, v));
  }

  /** The same for fork_v0, which copies the exception stack like any other page. */
  lemma ForkV0LeavesNothingOut(s: State, a: Spaces, e: EnvId, v: nat)
    requires Inv(s) && Rel(s, a) && ForkV0Enabled(s, e, ForkV0Run) && v < LIMIT && !Scratch(v)
    ensures Loc(s.ctl[e].fork.child, v) in a <==> Loc(e, v) in a
    ensures forall i: nat | i < PAGE_WORDS ::
              Enabled(Next(s, Step(e, ForkV0(ForkV0Run))), Step(s.ctl[e].fork.child, User(Load(v, i)))) <==> Loc(s.ctl[e].fork.child, v) in a
    ensures Agrees(s, a, Loc(s.ctl[e].fork.child, v)) && Agrees(s, a, Loc(e, v))
  {
    assert ForkOk(s, e);
    assert Visible(s, Loc(e, v)) && Visible(s, Loc(s.ctl[e].fork.child, v));
  }
}
