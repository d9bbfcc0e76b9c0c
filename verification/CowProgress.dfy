/** That the steps of CowRuns get somewhere: a fork that runs alone ends with its child running, or
    without a free page, and a store to a page that is not writable gets through after a fault. */
module CowProgress {
  import opened CowRuns

  // ---------------------------------------------------------------- the child runs

  /** Once fork has ended, the child reads wherever its parent has a page, and has an exception stack it
      can write without a fault. */
  lemma ForkRunsChild(s: State, e: EnvId, v: nat, i: nat)
    requires Inv(s) && ForkEnabled(s, e, ForkRun) && v < LIMIT && !Scratch(v) && i < PAGE_WORDS
    ensures Enabled(Next(s, Step(e, Fork(ForkRun))), Step(s.ctl[e].fork.child, User(Load(v, i)))) <==> v == XSTACK || Loc(e, v) in s.pt
    ensures Outside(Next(s, Step(e, Fork(ForkRun))), e) && Outside(Next(s, Step(e, Fork(ForkRun))), s.ctl[e].fork.child)
    ensures forall x: Word :: Enabled(Next(s, Step(e, Fork(ForkRun))), Step(s.ctl[e].fork.child, User(Store(XSTACK, i, x))))
  {
    assert ForkOk(s, e);
  }

  lemma ForkV0RunsChild(s: State, e: EnvId, v: nat, i: nat)
    requires Inv(s) && ForkV0Enabled(s, e, ForkV0Run) && v < LIMIT && !Scratch(v) && i < PAGE_WORDS
    ensures Enabled(Next(s, Step(e, ForkV0(ForkV0Run))), Step(s.ctl[e].fork.child, User(Load(v, i)))) <==> Loc(e, v) in s.pt
    ensures Outside(Next(s, Step(e, ForkV0(ForkV0Run))), e) && Outside(Next(s, Step(e, ForkV0(ForkV0Run))), s.ctl[e].fork.child)
  {
    assert ForkOk(s, e);
  }

  /** duppage takes write access from both and marks the page. */
  lemma DuppageProtectsBoth(s: State, e: EnvId)
    requires Inv(s) && ForkEnabled(s, e, DupChild)
    ensures var t := Next(s, Step(e, Fork(DupChild)));
            && Inv(t) && ForkEnabled(t, e, DupParent)
            && var pn, child, u := s.ctl[e].fork.pn, s.ctl[e].fork.child, Next(t, Step(e, Fork(DupParent)));
               && Loc(e, pn) in u.pt && Loc(child, pn) in u.pt
               && u.pt[Loc(e, pn)] == u.pt[Loc(child, pn)] == Pte(s.pt[Loc(e, pn)].ppn, false, true)
  {
    NextKeepsInv(s, Step(e, Fork(DupChild)));
    assert ForkOk(s, e);
    hide Inv;
  }

  /** The step makes a copy-on-write entry at `l`. */
  predicate Marks(s: State, st: Step, l: Loc)
    requires st.e in s.ctl
  {
    var f := s.ctl[st.e].fork;
    match st.op
    case Fork(DupChild) => f.Dup? && l == Loc(f.child, f.pn)
    case Fork(DupParent) => f.Mid? && l == Loc(st.e, f.pn)
    case User(AllocPage(v, _, cow, _)) => cow && l == Loc(st.e, v)
    case _ => false
  }

  predicate MarkedRightly(s: State, t: State, st: Step, l: Loc)
    requires st.e in s.ctl
  {
    l in t.pt ==> (t.pt[l].cow <==> Marks(s, st, l) || (l in s.pt && t.pt[l] == s.pt[l] && s.pt[l].cow))
  }

  lemma UserMarks(s: State, e: EnvId, u: UserOp, l: Loc)
    requires Inv(s) && UserEnabled(s, e, u)
    ensures MarkedRightly(s, UserNext(s, e, u), Step(e, User(u)), l)
  {
    hide Inv, Unused;
  }

  lemma FaultMarks(s: State, e: EnvId, h: FaultOp, l: Loc)
    requires Inv(s) && FaultEnabled(s, e, h)
    ensures HandOk(s, e) && MarkedRightly(s, FaultNext(s, e, h), Step(e, Fault(h)), l)
  {
    assert HandOk(s, e);
    hide Inv, Unused;
  }

  lemma ForkMarks(s: State, e: EnvId, k: ForkOp, l: Loc)
    requires Inv(s) && ForkEnabled(s, e, k)
    ensures ForkOk(s, e) && MarkedRightly(s, ForkNext(s, e, k), Step(e, Fork(k)), l)
  {
    assert ForkOk(s, e);
    hide Inv, Unused, SameSpace, ForkedSpace;
  }

  lemma ForkV0Marks(s: State, e: EnvId, z: ForkV0Op, l: Loc)
    requires Inv(s) && ForkV0Enabled(s, e, z)
    ensures ForkOk(s, e) && MarkedRightly(s, ForkV0Next(s, e, z), Step(e, ForkV0(z)), l)
  {
    assert ForkOk(s, e);
    hide Inv, Unused, SameSpace, ForkedSpace;
  }

  /** The mark is made by duppage, or asked for, and by nothing else; an entry made otherwise has none. */
  lemma MarksExactly(s: State, st: Step, l: Loc)
    requires Inv(s) && Enabled(s, st)
    ensures st.e in s.ctl && MarkedRightly(s, Next(s, st), st, l)
  {
    hide Inv, MarkedRightly, UserNext, FaultNext, ForkNext, ForkV0Next, SameSpace, ForkedSpace;
    match st.op
    case User(u) => UserMarks(s, st.e, u, l);
    case Fault(h) => FaultMarks(s, st.e, h, l);
    case Fork(k) => ForkMarks(s, st.e, k, l);
    case ForkV0(z) => ForkV0Marks(s, st.e, z, l);
  }

  /** Inside fork, and inside fork_v0, what comes next is settled. */
  lemma ForkIsDeterministic(s: State, e: EnvId, k: ForkOp, l: ForkOp, y: ForkV0Op, z: ForkV0Op)
    requires e in s.ctl && !s.ctl[e].fork.NoFork?
    ensures ForkEnabled(s, e, k) && ForkEnabled(s, e, l) ==> k == l || (k.ForkStack? && l.ForkStack?)
    ensures ForkV0Enabled(s, e, y) && ForkV0Enabled(s, e, z) ==> y == z || (y.EachAlloc? && z.EachAlloc?)
    ensures !(ForkEnabled(s, e, k) && ForkV0Enabled(s, e, z))
  {
    hide Unused;
  }

  // ---------------------------------------------------------------- fork comes to an end

  predicate Forking(s: State, e: EnvId) {
    Awake(s, e) && !s.ctl[e].fork.NoFork?
  }

  ghost predicate HasPage(s: State) {
    exists f: nat :: Unused(s, f)
  }

  /** How many of its own steps an environment is from the end of fork, at most. */
  function StepsLeft(f: Fork): nat {
    match f
    case NoFork => 0
    case Dup(_, pn) => if pn <= LIMIT then 2 * (LIMIT - pn) + 2 else 0
    case Mid(_, pn, _) => if pn <= LIMIT then 2 * (LIMIT - pn) + 1 else 0
    case Stacked(_) => 1
    case Each(_, pn) => if pn <= LIMIT then (PAGE_WORDS + 3) * (LIMIT - pn) + 1 else 0
    case Fresh(_, pn) => if pn <= LIMIT then (PAGE_WORDS + 3) * (LIMIT - pn) else 0
    case Moving(_, pn, k) => if pn < LIMIT && k <= PAGE_WORDS then (PAGE_WORDS + 3) * (LIMIT - pn) - 1 - k else 0
  }

  /** `op` is a step of fork or fork_v0. */
  predicate OfFork(op: Op) {
    op.Fork? || op.ForkV0?
  }

  /** `t` is `s` one step of `e` nearer the end of its fork. */
  predicate Nearer(s: State, t: State, e: EnvId)
    requires e in s.ctl && !s.ctl[e].fork.NoFork?
  {
    var c := s.ctl[e].fork.child;
    && Awake(t, e) && StepsLeft(t.ctl[e].fork) < StepsLeft(s.ctl[e].fork)
    && (if t.ctl[e].fork.NoFork? then Outside(t, c) else t.ctl[e].fork.child == c)
  }

  lemma DupGoesOn(s: State, e: EnvId, f: nat) returns (k: ForkOp)
    requires Inv(s) && Forking(s, e) && Unused(s, f) && (s.ctl[e].fork.Dup? || s.ctl[e].fork.Mid? || s.ctl[e].fork.Stacked?)
    ensures ForkEnabled(s, e, k) && Nearer(s, Next(s, Step(e, Fork(k))), e)
  {
    assert ForkOk(s, e) && HandOk(s, e);
    hide Exclusive, SameSpace, ForkedSpace, Unused;
    match s.ctl[e].fork
    case Dup(c, pn) =>
      if pn == LIMIT {
        k := ForkStack(f);
      } else if pn == XSTACK || Loc(e, pn) !in s.pt {
        k := DupSkip;
      } else if s.pt[Loc(e, pn)].w || s.pt[Loc(e, pn)].cow {
        k := DupChild;
      } else {
        k := DupReadOnly;
      }
    case Mid(_, _, _) => k := DupParent;
    case _ => k := ForkRun;
  }

  lemma EachGoesOn(s: State, e: EnvId, f: nat) returns (z: ForkV0Op)
    requires Inv(s) && Forking(s, e) && Unused(s, f) && s.ctl[e].fork.Each?
    ensures ForkV0Enabled(s, e, z) && Nearer(s, Next(s, Step(e, ForkV0(z))), e)
  {
    hide Exclusive, SameSpace, ForkedSpace, Unused, HandOk, WritableInBoth;
    assert ForkOk(s, e);
    var pn := s.ctl[e].fork.pn;
    if pn == LIMIT {
      z := ForkV0Run;
    } else if Loc(e, pn) !in s.pt {
      z := EachSkip;
    } else if s.pt[Loc(e, pn)].w {
      z := EachAlloc(f);
    } else {
      z := EachShare;
    }
  }

  lemma CopyGoesOn(s: State, e: EnvId) returns (z: ForkV0Op)
    requires Inv(s) && Forking(s, e) && (s.ctl[e].fork.Fresh? || s.ctl[e].fork.Moving?)
    ensures ForkV0Enabled(s, e, z) && Nearer(s, Next(s, Step(e, ForkV0(z))), e)
  {
    hide Exclusive, SameSpace, ForkedSpace, Unused, HandOk;
    assert ForkOk(s, e);
    z := if s.ctl[e].fork.Fresh? then EachAlias else if s.ctl[e].fork.k == PAGE_WORDS then EachUnmap else EachMove;
  }

  lemma ForkGoesOn(s: State, e: EnvId) returns (st: Step)
    requires Inv(s) && Forking(s, e) && HasPage(s)
    ensures st.e == e && OfFork(st.op) && Enabled(s, st) && Nearer(s, Go(s, st), e)
  {
    hide Inv, ForkNext, ForkV0Next, ForkEnabled, ForkV0Enabled, Nearer;
    var f: nat :| Unused(s, f);
    if s.ctl[e].fork.Dup? || s.ctl[e].fork.Mid? || s.ctl[e].fork.Stacked? {
      var k := DupGoesOn(s, e, f);
      st := Step(e, Op.Fork(k));
    } else if s.ctl[e].fork.Each? {
      var z := EachGoesOn(s, e, f);
      st := Step(e, Op.ForkV0(z));
    } else {
      var z := CopyGoesOn(s, e);
      st := Step(e, Op.ForkV0(z));
    }
  }

  /** Left to itself, a fork ends after so many steps with its child running, or no page is free. */
  lemma {:induction false} ForkFinishes(s: State, e: EnvId) returns (steps: seq<Step>)
    requires Inv(s) && Forking(s, e)
    ensures IsRun(s, steps) && |steps| <= StepsLeft(s.ctl[e].fork) && forall i: nat | i < |steps| :: steps[i].e == e && OfFork(steps[i].op)
    ensures var t := Final(s, steps); HasPage(t) ==> Outside(t, e) && Outside(t, s.ctl[e].fork.child)
    decreases StepsLeft(s.ctl[e].fork)
  {
    hide Inv, Next, Enabled, HasPage, StepsLeft, OfFork;
    steps := [];
    if HasPage(s) {
      var st := ForkGoesOn(s, e);
      var t := Go(s, st);
      var rest := [];
      if !t.ctl[e].fork.NoFork? {
        rest := ForkFinishes(t, e);
      }
      RunCons(s, st, rest);
      steps := [st] + rest;
    }
  }

  // ---------------------------------------------------------------- a fault comes to an end

  /** The words an environment sees at `l`. */
  function Words(s: State, l: Loc): seq<Word> {
    if l in s.pt && s.pt[l].ppn in s.mem then s.mem[s.pt[l].ppn] else []
  }

  /** Everything anybody sees outside PFTEMP of `e` is as it was, and so is every entry but one. */
  ghost predicate SeenTheSame(s: State, t: State, e: EnvId, v: nat) {
    && t.ctl.Keys == s.ctl.Keys
    && (forall l: Loc | l != Loc(e, PFTEMP) :: (l in t.pt <==> l in s.pt) && Words(t, l) == Words(s, l))
    && (forall l: Loc | l != Loc(e, PFTEMP) && l != Loc(e, v) && l in s.pt :: l in t.pt && t.pt[l] == s.pt[l])
  }

  lemma SeenTheSameTrans(s: State, t: State, u: State, e: EnvId, v: nat)
    requires SeenTheSame(s, t, e, v) && SeenTheSame(t, u, e, v)
    ensures SeenTheSame(s, u, e, v)
  {
  }

  /** One step of the handler that is under way. */
  function HandlerStep(h: Handler): FaultOp {
    match h
    case Copying(_, k) => if k < PAGE_WORDS then FaultMove else FaultMap
    case _ => FaultUnmap
  }

  /** Where the handler is after that step. */
  function HandlerThen(h: Handler): Handler {
    match h
    case Copying(va, k) => if k < PAGE_WORDS then Copying(va, k + 1) else Mapped(va)
    case _ => Idle
  }

  /** What one step of the handler of `e` comes to, the page at `v` having been asked for. */
  ghost predicate HandlerStepped(s: State, t: State, e: EnvId, v: nat)
    requires e in s.ctl
  {
    && e in t.ctl && t.ctl[e] == s.ctl[e].(hand := HandlerThen(s.ctl[e].hand)) && SeenTheSame(s, t, e, v)
    && (s.ctl[e].hand.Mapped? ==> Loc(e, v) in t.pt && t.pt[Loc(e, v)].w && !t.pt[Loc(e, v)].cow)
  }

  lemma MoveGoesOn(s: State, e: EnvId)
    requires Inv(s) && FaultEnabled(s, e, FaultMove)
    ensures HandlerStepped(s, Next(s, Step(e, Fault(FaultMove))), e, s.ctl[e].hand.va)
  {
    hide SameSpace, ForkedSpace, Exclusive, ForkOk;
    assert HandOk(s, e);
    forall l: Loc | l in s.pt && l != Loc(e, PFTEMP)
      ensures s.pt[l].ppn != s.pt[Loc(e, PFTEMP)].ppn
    {
      TempIsAlone(s, e, l);
    }
  }

  lemma MapGoesOn(s: State, e: EnvId)
    requires Inv(s) && FaultEnabled(s, e, FaultMap)
    ensures HandlerStepped(s, Next(s, Step(e, Fault(FaultMap))), e, s.ctl[e].hand.va)
  {
    hide SameSpace, ForkedSpace, Exclusive, ForkOk;
    assert HandOk(s, e);
    var tmp, l := Loc(e, PFTEMP), Loc(e, s.ctl[e].hand.va);
    assert s.mem[s.pt[tmp].ppn][..PAGE_WORDS] == s.mem[s.pt[tmp].ppn] && s.mem[s.pt[l].ppn][..PAGE_WORDS] == s.mem[s.pt[l].ppn];
  }

  lemma UnmapGoesOn(s: State, e: EnvId)
    requires Inv(s) && FaultEnabled(s, e, FaultUnmap)
    ensures HandlerStepped(s, Next(s, Step(e, Fault(FaultUnmap))), e, s.ctl[e].hand.va)
  {
    hide SameSpace, ForkedSpace, Exclusive, ForkOk;
    assert HandOk(s, e);
  }

  lemma HandlerGoesOn(s: State, e: EnvId)
    requires Inv(s) && e in s.ctl && !s.ctl[e].hand.Idle?
    ensures s.ctl[e].runnable && Enabled(s, Step(e, Fault(HandlerStep(s.ctl[e].hand))))
    ensures HandlerStepped(s, Go(s, Step(e, Fault(HandlerStep(s.ctl[e].hand)))), e, s.ctl[e].hand.va)
    ensures StepsOfHandler(s.ctl[e].hand) == StepsOfHandler(HandlerThen(s.ctl[e].hand)) + 1
  {
    assert HandOk(s, e);
    hide Inv, FaultNext, HandlerStepped, SameSpace, ForkedSpace;
    match HandlerStep(s.ctl[e].hand)
    case FaultMove => MoveGoesOn(s, e);
    case FaultMap => MapGoesOn(s, e);
    case _ => UnmapGoesOn(s, e);
  }

  lemma RunCons(s: State, st: Step, rest: seq<Step>)
    requires Inv(s) && Enabled(s, st) && IsRun(Go(s, st), rest)
    ensures IsRun(s, [st] + rest) && Final(s, [st] + rest) == Final(Go(s, st), rest)
  {
    hide Inv, Enabled, Next;
    assert ([st] + rest)[1..] == rest;
  }

  function StepsOfHandler(h: Handler): nat {
    match h
    case Idle => 0
    case Copying(_, k) => if k <= PAGE_WORDS then PAGE_WORDS - k + 2 else 0
    case Mapped(_) => 1
  }

  /** The handler, once it has its page, ends with the page writable. */
  lemma {:induction false} HandlerFinishes(s: State, e: EnvId, v: nat) returns (steps: seq<Step>)
    requires Inv(s) && e in s.ctl && !s.ctl[e].hand.Idle? && s.ctl[e].hand.va == v
    ensures IsRun(s, steps) && |steps| == StepsOfHandler(s.ctl[e].hand)
    ensures HandlerDone(s, Final(s, steps), e, v)
    decreases StepsOfHandler(s.ctl[e].hand)
  {
    hide Inv, Next, Enabled, SeenTheSame;
    HandlerGoesOn(s, e);
    var st := Step(e, Fault(HandlerStep(s.ctl[e].hand)));
    var t := Go(s, st);
    var rest := [];
    if !t.ctl[e].hand.Idle? {
      rest := HandlerFinishes(t, e, v);
      SeenTheSameTrans(s, t, Final(t, rest), e, v);
    }
    RunCons(s, st, rest);
    steps := [st] + rest;
  }

  ghost predicate HandlerDone(s: State, t: State, e: EnvId, v: nat)
    requires e in s.ctl
  {
    && e in t.ctl && t.ctl[e] == s.ctl[e].(hand := Handler.Idle) && SeenTheSame(s, t, e, v)
    && Loc(e, v) in t.pt && t.pt[Loc(e, v)].w && !t.pt[Loc(e, v)].cow
  }

  lemma FaultStarts(s: State, e: EnvId, v: nat, f: nat)
    requires Inv(s) && Awake(s, e) && !Scratch(v) && Loc(e, v) in s.pt && !s.pt[Loc(e, v)].w && Unused(s, f)
    ensures Enabled(s, Step(e, Fault(FaultAlloc(v, f))))
    ensures var t := Go(s, Step(e, Fault(FaultAlloc(v, f)))); t.ctl == s.ctl[e := s.ctl[e].(hand := Copying(v, 0))] && SeenTheSame(s, t, e, v)
  {
    hide SameSpace, ForkedSpace, Exclusive, ForkOk;
    assert HandOk(s, e);
  }

  /** A store to any page that is mapped gets through: at once, or when the handler has run, which
      takes as many steps as a page has words and three more and changes nothing anybody sees. */
  lemma StoreGetsThrough(s: State, e: EnvId, v: nat, i: nat, x: Word) returns (steps: seq<Step>)
    requires Inv(s) && Awake(s, e) && HasPage(s) && !Scratch(v) && Loc(e, v) in s.pt && i < PAGE_WORDS
    ensures IsRun(s, steps) && |steps| == if s.pt[Loc(e, v)].w then 0 else PAGE_WORDS + 3
    ensures Enabled(Final(s, steps), Step(e, User(Store(v, i, x)))) && SeenTheSame(s, Final(s, steps), e, v)
  {
    hide Inv, Next, SeenTheSame;
    steps := [];
    if s.pt[Loc(e, v)].w {
      assert SeenTheSame(s, s, e, v) by {
        SeenTheSameRefl(s, e, v);
      }
    } else {
      var f: nat :| Unused(s, f);
      FaultStarts(s, e, v, f);
      var st := Step(e, Fault(FaultAlloc(v, f)));
      var t := Go(s, st);
      var rest := HandlerFinishes(t, e, v);
      SeenTheSameTrans(s, t, Final(t, rest), e, v);
      RunCons(s, st, rest);
      steps := [st] + rest;
    }
  }

  lemma SeenTheSameRefl(s: State, e: EnvId, v: nat)
    ensures SeenTheSame(s, s, e, v)
  {
  }
}
