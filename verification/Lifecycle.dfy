/** Environments on several CPUs under the big kernel lock, after kern/env.c, kern/trap.c,
    kern/syscall.c and lib/ipc.c.

    Everything between lock_kernel and unlock_kernel is one step: a trap from user mode or out
    of a halt, the system call it carries, and the scheduling decision that ends it.  The
    steps of all CPUs, and the reads a receiver makes in user mode, interleave in any order. */
module Lifecycle {
  import opened Common
  import opened Mlfq

  /** What the timers say during one kernel entry. */
  datatype Clock = Clock(downgrade: bool, boost: bool, resume: bool)

  datatype Call =
    | Timer
    | Fault                                        // ends in env_destroy(curenv)
    | Other                                        // a call that leaves this table alone
    | SysYield
    | SysDestroy(envid: int)
    | SysExofork(memory: bool)
    | SysSetStatus(envid: int, status: Status)
    | SysChangePrio(envid: int, prio: int)
    | SysTrySend(envid: int, value: int, pageError: int)
    | SysRecv(goodAddress: bool)

  /** A call either returns to trap() or ends in sched_yield. */
  datatype Outcome = Returned(sys: Sys, r: int) | Yielded(sys: Sys)

  // ---------------------------------------------------------------- invariants

  predicate Busy(s: Sys, e: nat) {
    e < |s.status| && (s.status[e] == RUNNING || s.status[e] == DYING)
  }

  ghost predicate IsCurrent(s: Sys, e: nat) {
    exists b: nat :: b < |s.cur| && s.cur[b] == Some(e)
  }

  ghost predicate CpusDiffer(s: Sys) {
    && (forall b: nat | b < |s.cur| && s.cur[b].Some? :: s.cur[b].value < NENV)
    && (forall a: nat, b: nat | a < b < |s.cur| && s.cur[a].Some? :: s.cur[a] != s.cur[b])
  }

  ghost predicate ReceiversBlocked(s: Sys) {
    Sized(s) && forall e: nat | Live(s, e) && s.recving[e] :: s.status[e] == NOT_RUNNABLE
  }

  /** Nobody holds the lock. */
  ghost predicate Outside(s: Sys) {
    && Placed(s) && CpusDiffer(s) && ReceiversBlocked(s)
    && (forall b: nat | b < |s.cur| && s.cur[b].Some? :: Busy(s, s.cur[b].value))
    && (forall e: nat | Busy(s, e) :: IsCurrent(s, e))
  }

  /** CPU `c` holds the lock: its own environment may be in any live state but DYING. */
  ghost predicate InKernel(s: Sys, c: nat) {
    && Placed(s) && CpusDiffer(s) && ReceiversBlocked(s) && c < |s.cur| && !s.stopped
    && (forall b: nat | b < |s.cur| && b != c && s.cur[b].Some? :: Busy(s, s.cur[b].value))
    && (s.cur[c].Some? ==> Live(s, s.cur[c].value) && s.status[s.cur[c].value] != DYING)
    && (forall e: nat | Busy(s, e) :: IsCurrent(s, e))
  }

  /** The kernel monitor was entered: there was nothing left to run. */
  ghost predicate AllBlocked(s: Sys) {
    && Placed(s) && CpusDiffer(s) && ReceiversBlocked(s)
    && forall e: nat | e < NENV :: s.status[e] == FREE || s.status[e] == NOT_RUNNABLE
  }

  ghost predicate LifecycleOk(s: Sys) {
    if s.stopped then AllBlocked(s) else Outside(s)
  }

  // ---------------------------------------------------------------- scheduling

  /** env_switch. */
  function SwitchTo(s: Sys, c: nat, e: nat): Sys
    requires Sized(s) && c < |s.cur| && e < NENV
  {
    var statuses :=
      if s.cur[c].Some? && s.cur[c].value < NENV && s.status[s.cur[c].value] == RUNNING
      then s.status[s.cur[c].value := RUNNABLE] else s.status;
    s.(status := statuses[e := RUNNING], cur := s.cur[c := Some(e)])
  }

  predicate Runnish(t: Status) {
    t == RUNNABLE || t == RUNNING || t == DYING
  }

  /** sched_halt. */
  function Halt(s: Sys, c: nat): Sys
    requires Sized(s) && c < |s.cur|
  {
    if exists e | 0 <= e < NENV :: Runnish(s.status[e]) then s.(cur := s.cur[c := None]) else s.(stopped := true)
  }

  function Downgraded(s: Sys, c: nat, k: Clock): Sys
    requires InKernel(s, c)
  {
    if k.downgrade && s.cur[c].Some? && s.qnum[s.cur[c].value] < NQUEUES - 1
    then Reprioritize(s, s.cur[c].value, s.qnum[s.cur[c].value] + 1) else s
  }

  function Prepared(s: Sys, c: nat, k: Clock): Sys
    requires InKernel(s, c)
  {
    if k.boost then Boosted(Downgraded(s, c, k)) else Downgraded(s, c, k)
  }

  /** sched_yield, with MLFQ_SCHED defined. */
  function Yield(s: Sys, c: nat, k: Clock): Sys
    requires InKernel(s, c)
  {
    var t := Prepared(s, c, k);
    match Choose(t, c)
    case Some(e) => if e < NENV then SwitchTo(t, c, e) else t
    case None => Halt(t, c)
  }

  // ---------------------------------------------------------------- system calls

  /** envid2env, for a caller running on `c`. */
  function Lookup(s: Sys, c: nat, envid: int, checkperm: bool): Option<nat>
    requires Sized(s) && c < |s.cur| && s.cur[c].Some? && s.cur[c].value < NENV
  {
    var me := s.cur[c].value;
    if envid == 0 then Some(me)
    else
      var e: nat := envid % NENV;
      if s.status[e] == FREE || s.id[e] != envid then None
      else if checkperm && e != me && s.parent[e] != s.id[me] then None
      else Some(e)
  }

  /** env_destroy. */
  function Destroy(s: Sys, c: nat, e: nat): Outcome
    requires Placed(s) && c < |s.cur| && Live(s, e)
  {
    if s.status[e] == RUNNING && s.cur[c] != Some(e) then Returned(s.(status := s.status[e := DYING]), E_OK)
    else
      var t := Release(s, e);
      if s.cur[c] == Some(e) then Yielded(t.(cur := t.cur[c := None])) else Returned(t, E_OK)
  }

  function Exofork(s: Sys, c: nat, memory: bool): Outcome
    requires Placed(s) && c < |s.cur| && s.cur[c].Some? && s.cur[c].value < NENV
  {
    if s.free == [] then Returned(s, E_NO_FREE_ENV)
    else if !memory then Returned(s, E_NO_MEM)
    else
      assert s.free[0] in s.free;
      var e, t := s.free[0], Alloc(s, s.id[s.cur[c].value]);
      var u := t.(status := t.status[e := NOT_RUNNABLE]);
      Returned(Reprioritize(u, e, u.qnum[s.cur[c].value]), u.id[e])
  }

  function SetStatus(s: Sys, c: nat, envid: int, status: Status): Outcome
    requires Sized(s) && c < |s.cur| && s.cur[c].Some? && s.cur[c].value < NENV
  {
    if status != RUNNABLE && status != NOT_RUNNABLE then Returned(s, E_INVAL)
    else
      match Lookup(s, c, envid, true)
      case None => Returned(s, E_BAD_ENV)
      case Some(e) => Returned(s.(status := s.status[e := status]), E_OK)
  }

  function ChangePrio(s: Sys, c: nat, envid: int, prio: int): Outcome
    requires Placed(s) && c < |s.cur| && s.cur[c].Some? && Live(s, s.cur[c].value)
  {
    match Lookup(s, c, envid, true)
    case None => Returned(s, E_BAD_ENV)
    case Some(e) =>
      if !(0 <= prio < NQUEUES) || prio < s.qnum[e] then Returned(s, E_INVAL)
      else if prio == s.qnum[e] then Returned(s, E_OK)
      else Returned(Reprioritize(s, e, prio), E_OK)
  }

  /** sys_ipc_try_send; `pageError` is what checking and moving the page came to, 0 when no
      page is sent. */
  function TrySend(s: Sys, c: nat, envid: int, value: int, pageError: int): Outcome
    requires Sized(s) && c < |s.cur| && s.cur[c].Some? && s.cur[c].value < NENV
  {
    match Lookup(s, c, envid, false)
    case None => Returned(s, E_BAD_ENV)
    case Some(e) =>
      if !s.recving[e] then Returned(s, E_IPC_NOT_RECV)
      else if pageError < 0 then Returned(s, pageError)
      else
        Returned(s.(from := s.from[e := s.id[s.cur[c].value]], recving := s.recving[e := false],
                    value := s.value[e := value], status := s.status[e := RUNNABLE]), E_OK)
  }

  /** sys_ipc_recv sets the flag before it looks at the address. */
  function Recv(s: Sys, c: nat, goodAddress: bool): Outcome
    requires Sized(s) && c < |s.cur| && s.cur[c].Some? && s.cur[c].value < NENV
  {
    var me := s.cur[c].value;
    var t := s.(recving := s.recving[me := true]);
    if goodAddress then Yielded(t.(status := t.status[me := NOT_RUNNABLE])) else Returned(t, E_INVAL)
  }

  ghost predicate Running(s: Sys, c: nat) {
    InKernel(s, c) && s.cur[c].Some? && s.status[s.cur[c].value] == RUNNING
  }

  /** trap_dispatch. */
  function Dispatch(s: Sys, c: nat, call: Call): Outcome
    requires Running(s, c)
  {
    match call
    case Timer => Yielded(s)
    case Fault => Destroy(s, c, s.cur[c].value)
    case Other => Returned(s, E_OK)
    case SysYield => Yielded(s)
    case SysDestroy(envid) =>
      (match Lookup(s, c, envid, true)
       case None => Returned(s, E_BAD_ENV)
       case Some(e) => Destroy(s, c, e))
    case SysExofork(memory) => Exofork(s, c, memory)
    case SysSetStatus(envid, status) => SetStatus(s, c, envid, status)
    case SysChangePrio(envid, prio) => ChangePrio(s, c, envid, prio)
    case SysTrySend(envid, value, pageError) => TrySend(s, c, envid, value, pageError)
    case SysRecv(good) => Recv(s, c, good)
  }

  /** What the kernel relies on its callers for and does not check itself. */
  predicate Guard(s: Sys, c: nat, call: Call)
    requires Sized(s) && c < |s.cur| && s.cur[c].Some? && s.cur[c].value < NENV
  {
    match call
    case SysDestroy(envid) =>
      var e := Lookup(s, c, envid, true);
      e.Some? ==> s.status[e.value] != DYING
    case SysSetStatus(envid, status) =>
      var e := Lookup(s, c, envid, true);
      e.Some? && (status == RUNNABLE || status == NOT_RUNNABLE) ==>
        (e == s.cur[c] || !Busy(s, e.value)) && !(s.recving[e.value] && status == RUNNABLE)
    case SysRecv(good) => good
    case _ => true
  }

  // ---------------------------------------------------------------- each call, exactly

  lemma LookupIsLive(s: Sys, c: nat, envid: int, checkperm: bool)
    requires Sized(s) && c < |s.cur| && s.cur[c].Some? && Live(s, s.cur[c].value)
    ensures var e := Lookup(s, c, envid, checkperm); e.Some? ==> Live(s, e.value)
  {
  }

  /** A call keeps the kernel's invariant exactly when its guard holds. */
  lemma DispatchKeepsInvariantExactly(s: Sys, c: nat, call: Call)
    requires Running(s, c)
    ensures InKernel(Dispatch(s, c, call).sys, c) <==> Guard(s, c, call)
  {
    match call
    case Timer =>
    case Fault => DestroyExactly(s, c, s.cur[c].value);
    case Other =>
    case SysYield =>
    case SysDestroy(envid) =>
      LookupIsLive(s, c, envid, true);
      var e := Lookup(s, c, envid, true);
      if e.Some? {
        DestroyExactly(s, c, e.value);
      }
    case SysExofork(memory) => ExoforkKeeps(s, c, memory);
    case SysSetStatus(envid, status) => SetStatusExactly(s, c, envid, status);
    case SysChangePrio(envid, prio) => ChangePrioKeeps(s, c, envid, prio);
    case SysTrySend(envid, value, pageError) => TrySendKeeps(s, c, envid, value, pageError);
    case SysRecv(good) => RecvExactly(s, c, good);
  }

  lemma StatusKeepsPlaced(s: Sys, e: nat, status: Status)
    requires Placed(s) && Live(s, e) && status != FREE
    ensures Placed(s.(status := s.status[e := status]))
  {
    var t := s.(status := s.status[e := status]);
    assert forall i: nat, x: nat | i < NQUEUES :: Member(t, i, x) <==> Member(s, i, x);
  }

  function WithStatus(s: Sys, e: nat, status: Status): Sys
    requires e < |s.status|
  {
    s.(status := s.status[e := status])
  }

  lemma MarkKeeps(s: Sys, c: nat, e: nat)
    requires Running(s, c) && Live(s, e) && s.status[e] == RUNNING && s.cur[c] != Some(e)
    ensures InKernel(WithStatus(s, e, DYING), c)
  {
    hide NoDup;
    var t := WithStatus(s, e, DYING);
    assert forall i: nat, x: nat | i < NQUEUES :: Member(t, i, x) <==> Member(s, i, x);
    forall x: nat | Busy(t, x)
      ensures IsCurrent(t, x)
    {
      assert IsCurrent(s, x);
    }
  }

  /** env_free of an environment that runs nowhere, or only here. */
  lemma FreeKeeps(s: Sys, c: nat, e: nat)
    requires Running(s, c) && Live(s, e) && !(s.status[e] == RUNNING && s.cur[c] != Some(e)) && s.status[e] != DYING
    ensures InKernel(Destroy(s, c, e).sys, c)
  {
    hide NoDup, Remove;
    var t := Destroy(s, c, e).sys;
    ReleaseKeepsPlaced(s, e);
    assert forall i: nat, x: nat | i < NQUEUES :: Member(t, i, x) <==> Member(Release(s, e), i, x);
    hide Placed;
    forall x: nat | Busy(t, x)
      ensures IsCurrent(t, x)
    {
      assert IsCurrent(s, x);
      var b: nat :| b < |s.cur| && s.cur[b] == Some(x);
      assert t.cur[b] == Some(x);
    }
    forall b: nat | b < |s.cur| && b != c && s.cur[b].Some?
      ensures Busy(t, s.cur[b].value)
    {
      assert Busy(s, s.cur[b].value);
    }
  }

  lemma FreeBreaks(s: Sys, c: nat, e: nat)
    requires Running(s, c) && Live(s, e) && s.status[e] == DYING
    ensures !InKernel(Destroy(s, c, e).sys, c)
  {
    hide NoDup, Remove;
    var t := Destroy(s, c, e).sys;
    assert IsCurrent(s, e);
    var b: nat :| b < |s.cur| && s.cur[b] == Some(e);
    assert t.cur[b] == Some(e) && !Busy(t, e);
  }

  lemma DestroyExactly(s: Sys, c: nat, e: nat)
    requires Running(s, c) && Live(s, e)
    ensures InKernel(Destroy(s, c, e).sys, c) <==> s.status[e] != DYING
  {
    hide Placed, Release, IsCurrent, CpusDiffer;
    if s.status[e] == DYING {
      FreeBreaks(s, c, e);
    } else if s.status[e] == RUNNING && s.cur[c] != Some(e) {
      MarkKeeps(s, c, e);
    } else {
      FreeKeeps(s, c, e);
    }
  }

  /** The child's slot, kept from running and moved to its parent's queue. */
  lemma ChildKeepsPlaced(s: Sys, parentId: int, prio: nat)
    requires Placed(s) && s.free != []
    ensures s.free[0] < NENV && s.status[s.free[0]] == FREE
    ensures var e, t := s.free[0], Alloc(s, parentId);
            Placed(Reprioritize(t.(status := t.status[e := NOT_RUNNABLE]), e, prio))
  {
    assert s.free[0] in s.free;
    var e, t := s.free[0], Alloc(s, parentId);
    AllocKeepsPlaced(s, parentId);
    var u := t.(status := t.status[e := NOT_RUNNABLE]);
    hide NextId, Remove, NoDup;
    assert forall i: nat, x: nat | i < NQUEUES :: Member(u, i, x) <==> Member(t, i, x);
    ReprioritizeKeepsPlaced(u, e, prio);
  }

  lemma ExoforkKeeps(s: Sys, c: nat, memory: bool)
    requires Running(s, c)
    ensures InKernel(Exofork(s, c, memory).sys, c)
  {
    if s.free != [] && memory {
      var me := s.cur[c].value;
      ChildKeepsPlaced(s, s.id[me], Alloc(s, s.id[me]).qnum[me]) by {
        assert s.free[0] in s.free;
      }
      hide NextId, Remove, NoDup, Placed;
      var v := Exofork(s, c, memory).sys;
      forall x: nat | Busy(v, x)
        ensures IsCurrent(v, x)
      {
        assert Busy(s, x);
        assert IsCurrent(s, x);
      }
    }
  }

  lemma StatusKeeps(s: Sys, c: nat, e: nat, status: Status)
    requires Running(s, c) && Live(s, e) && (status == RUNNABLE || status == NOT_RUNNABLE)
    requires (Some(e) == s.cur[c] || !Busy(s, e)) && !(s.recving[e] && status == RUNNABLE)
    ensures InKernel(WithStatus(s, e, status), c)
  {
    hide NoDup;
    var t := WithStatus(s, e, status);
    assert forall i: nat, x: nat | i < NQUEUES :: Member(t, i, x) <==> Member(s, i, x);
    forall x: nat | Busy(t, x)
      ensures IsCurrent(t, x)
    {
      assert IsCurrent(s, x);
    }
  }

  lemma StatusBreaks(s: Sys, c: nat, e: nat, status: Status)
    requires Running(s, c) && Live(s, e) && (status == RUNNABLE || status == NOT_RUNNABLE)
    requires (Some(e) != s.cur[c] && Busy(s, e)) || (s.recving[e] && status == RUNNABLE)
    ensures !InKernel(WithStatus(s, e, status), c)
  {
    hide Placed;
    var t := WithStatus(s, e, status);
    if Busy(s, e) && Some(e) != s.cur[c] {
      assert IsCurrent(s, e);
      var b: nat :| b < |s.cur| && s.cur[b] == Some(e);
      assert t.cur[b] == Some(e) && !Busy(t, e);
    } else {
      assert Live(t, e) && t.recving[e] && t.status[e] != NOT_RUNNABLE;
    }
  }

  lemma SetStatusExactly(s: Sys, c: nat, envid: int, status: Status)
    requires Running(s, c)
    ensures InKernel(SetStatus(s, c, envid, status).sys, c) <==> Guard(s, c, SysSetStatus(envid, status))
  {
    hide Placed, IsCurrent, Lookup, Busy;
    LookupIsLive(s, c, envid, true);
    var found := Lookup(s, c, envid, true);
    if found.Some? && (status == RUNNABLE || status == NOT_RUNNABLE) {
      if (found == s.cur[c] || !Busy(s, found.value)) && !(s.recving[found.value] && status == RUNNABLE) {
        StatusKeeps(s, c, found.value, status);
      } else {
        StatusBreaks(s, c, found.value, status);
      }
    }
  }

  lemma ChangePrioKeeps(s: Sys, c: nat, envid: int, prio: int)
    requires Running(s, c)
    ensures InKernel(ChangePrio(s, c, envid, prio).sys, c)
  {
    LookupIsLive(s, c, envid, true);
    var e := Lookup(s, c, envid, true);
    if e.Some? && 0 <= prio < NQUEUES {
      ReprioritizeKeepsKernel(s, c, e.value, prio);
    }
  }

  lemma ReprioritizeKeepsKernel(s: Sys, c: nat, e: nat, prio: nat)
    requires InKernel(s, c) && Live(s, e)
    ensures InKernel(Reprioritize(s, e, prio), c)
  {
    ReprioritizeKeepsPlaced(s, e, prio);
    SameTable(s, Reprioritize(s, e, prio), c);
  }

  /** Moving environments between queues cannot disturb the rest. */
  lemma SameTable(s: Sys, t: Sys, c: nat)
    requires InKernel(s, c) && Placed(t)
    requires t.status == s.status && t.cur == s.cur && t.recving == s.recving && t.stopped == s.stopped
    ensures InKernel(t, c)
  {
    forall x: nat | Busy(t, x)
      ensures IsCurrent(t, x)
    {
      assert IsCurrent(s, x);
    }
  }

  lemma TrySendKeeps(s: Sys, c: nat, envid: int, value: int, pageError: int)
    requires Running(s, c)
    ensures InKernel(TrySend(s, c, envid, value, pageError).sys, c)
  {
    LookupIsLive(s, c, envid, false);
    var found := Lookup(s, c, envid, false);
    if found.Some? && s.recving[found.value] && pageError >= 0 {
      var t := TrySend(s, c, envid, value, pageError).sys;
      assert forall i: nat, x: nat | i < NQUEUES :: Member(t, i, x) <==> Member(s, i, x);
      forall x: nat | Busy(t, x)
        ensures IsCurrent(t, x)
      {
        assert IsCurrent(s, x);
      }
    }
  }

  lemma RecvExactly(s: Sys, c: nat, good: bool)
    requires Running(s, c)
    ensures InKernel(Recv(s, c, good).sys, c) <==> good
  {
    var me, t := s.cur[c].value, Recv(s, c, good).sys;
    if good {
      assert forall i: nat, x: nat | i < NQUEUES :: Member(t, i, x) <==> Member(s, i, x);
      forall x: nat | Busy(t, x)
        ensures IsCurrent(t, x)
      {
        assert IsCurrent(s, x);
      }
    } else {
      assert Live(t, me) && t.recving[me] && t.status[me] != NOT_RUNNABLE;
    }
  }

  // ---------------------------------------------------------------- the decision that ends a step

  lemma PreparedKeepsKernel(s: Sys, c: nat, k: Clock)
    requires InKernel(s, c)
    ensures InKernel(Prepared(s, c, k), c)
  {
    var t := Downgraded(s, c, k);
    if s.cur[c].Some? {
      ReprioritizeKeepsKernel(s, c, s.cur[c].value, s.qnum[s.cur[c].value] + 1);
    }
    BoostedKeepsPlaced(t);
    SameTable(t, Boosted(t), c);
  }

  lemma SwitchReleasesLock(s: Sys, c: nat, e: nat)
    requires InKernel(s, c) && CanRun(s, c, e)
    ensures Outside(SwitchTo(s, c, e)) && SwitchTo(s, c, e).cur[c] == Some(e)
    ensures forall x: nat | Live(s, x) :: Runnish(SwitchTo(s, c, e).status[x]) <==> Runnish(s.status[x])
  {
    var t := SwitchTo(s, c, e);
    assert forall i: nat, x: nat | i < NQUEUES :: Member(t, i, x) <==> Member(s, i, x);
    forall x: nat | Busy(t, x)
      ensures IsCurrent(t, x)
    {
      if x == e {
        assert t.cur[c] == Some(e);
      } else {
        assert Busy(s, x) && IsCurrent(s, x);
        var b: nat :| b < |s.cur| && s.cur[b] == Some(x);
        assert t.cur[b] == Some(x);
      }
    }
  }

  /** A CPU halts only when its own environment cannot go on, and the kernel stops only when
      no environment can. */
  lemma HaltReleasesLock(s: Sys, c: nat)
    requires InKernel(s, c) && forall e: nat :: !CanRun(s, c, e)
    ensures LifecycleOk(Halt(s, c))
  {
    var t := Halt(s, c);
    assert s.cur[c].Some? ==> !CanRun(s, c, s.cur[c].value) && !Busy(s, s.cur[c].value);
    forall x: nat | Busy(t, x)
      ensures IsCurrent(t, x)
    {
      assert IsCurrent(s, x);
      var b: nat :| b < |s.cur| && s.cur[b] == Some(x);
      assert t.cur[b] == Some(x);
    }
    if t.stopped {
      forall e: nat | e < NENV
        ensures s.status[e] == FREE || s.status[e] == NOT_RUNNABLE
      {
        assert !Runnish(s.status[e]);
      }
    }
  }

  lemma YieldReleasesLock(s: Sys, c: nat, k: Clock)
    requires InKernel(s, c)
    ensures LifecycleOk(Yield(s, c, k))
  {
    PreparedKeepsKernel(s, c, k);
    var t := Prepared(s, c, k);
    ChoiceCanRun(t, c);
    match Choose(t, c)
    case Some(e) => SwitchReleasesLock(t, c, e);
    case None => HaltReleasesLock(t, c);
  }

  // ---------------------------------------------------------------- one kernel entry

  function Finish(o: Outcome, c: nat, k: Clock): Sys
    requires InKernel(o.sys, c)
  {
    match o
    case Yielded(t) => Yield(t, c, k)
    case Returned(t, _) =>
      if t.cur[c].Some? && t.status[t.cur[c].value] == RUNNING && k.resume then SwitchTo(t, c, t.cur[c].value)
      else Yield(t, c, k)
  }

  /** env_free of a zombie found on the way into the kernel. */
  function Reaped(s: Sys, c: nat): Sys
    requires Placed(s) && c < |s.cur| && s.cur[c].Some? && Live(s, s.cur[c].value)
  {
    var t := Release(s, s.cur[c].value);
    t.(cur := t.cur[c := None])
  }

  lemma ReapedKeepsKernel(s: Sys, c: nat)
    requires Outside(s) && !s.stopped && c < |s.cur| && s.cur[c].Some?
    ensures InKernel(Reaped(s, c), c)
  {
    var e, t := s.cur[c].value, Reaped(s, c);
    assert Busy(s, e);
    ReleaseKeepsPlaced(s, e);
    assert forall i: nat, x: nat | i < NQUEUES :: Member(t, i, x) <==> Member(Release(s, e), i, x);
    forall x: nat | Busy(t, x)
      ensures IsCurrent(t, x)
    {
      assert Busy(s, x) && IsCurrent(s, x);
      var b: nat :| b < |s.cur| && s.cur[b] == Some(x);
      assert t.cur[b] == Some(x);
    }
    forall b: nat | b < |s.cur| && b != c && s.cur[b].Some?
      ensures Busy(t, s.cur[b].value)
    {
      assert Busy(s, s.cur[b].value);
      assert s.cur[b] != s.cur[c];
    }
  }

  /** CPU `c` can enter the kernel with this call; a halted CPU is woken by the timer only. */
  ghost predicate CanTrap(s: Sys, c: nat, call: Call) {
    && Outside(s) && !s.stopped && c < |s.cur|
    && (if s.cur[c].None? then call == Timer else s.status[s.cur[c].value] == RUNNING ==> Guard(s, c, call))
  }

  /** trap(), from the lock to the unlock. */
  function Trap(s: Sys, c: nat, call: Call, k: Clock): (t: Sys)
    requires CanTrap(s, c, call)
    ensures LifecycleOk(t)
  {
    if s.cur[c].None? then
      YieldReleasesLock(s, c, k);
      Yield(s, c, k)
    else if s.status[s.cur[c].value] == DYING then
      ReapedKeepsKernel(s, c);
      YieldReleasesLock(Reaped(s, c), c, k);
      Yield(Reaped(s, c), c, k)
    else
      assert Busy(s, s.cur[c].value);
      DispatchKeepsInvariantExactly(s, c, call);
      FinishReleasesLock(Dispatch(s, c, call), c, k);
      Finish(Dispatch(s, c, call), c, k)
  }

  lemma FinishReleasesLock(o: Outcome, c: nat, k: Clock)
    requires InKernel(o.sys, c)
    ensures LifecycleOk(Finish(o, c, k))
  {
    YieldReleasesLock(o.sys, c, k);
    if o.Returned? && o.sys.cur[c].Some? && o.sys.status[o.sys.cur[c].value] == RUNNING {
      SwitchReleasesLock(o.sys, c, o.sys.cur[c].value);
    }
  }

  // ---------------------------------------------------------------- what scheduling leaves alone

  /** The parts of the table that no scheduling decision touches. */
  ghost predicate SameIdentities(s: Sys, t: Sys) {
    && Sized(s) && Sized(t)
    && t.id == s.id && t.recving == s.recving && t.from == s.from && t.value == s.value && |t.cur| == |s.cur|
    && forall e: nat :: Live(t, e) <==> Live(s, e)
  }

  lemma PreparedKeepsIdentities(s: Sys, c: nat, k: Clock)
    requires InKernel(s, c)
    ensures SameIdentities(s, Prepared(s, c, k))
  {
    hide Remove, Flatten, BoostedNumbers, NoDup;
  }

  lemma SwitchKeepsIdentities(s: Sys, c: nat, e: nat)
    requires Sized(s) && c < |s.cur| && Live(s, e)
    ensures SameIdentities(s, SwitchTo(s, c, e))
  {
  }

  lemma HaltKeepsIdentities(s: Sys, c: nat)
    requires Sized(s) && c < |s.cur|
    ensures SameIdentities(s, Halt(s, c))
  {
  }

  lemma SameIdentitiesTrans(s: Sys, t: Sys, u: Sys)
    requires SameIdentities(s, t) && SameIdentities(t, u)
    ensures SameIdentities(s, u)
  {
  }

  /** What the choice after a decision can be. */
  lemma ChoiceFacts(s: Sys, c: nat)
    requires InKernel(s, c)
    ensures Sized(s) && c < |s.cur|
    ensures Choose(s, c).Some? ==> Choose(s, c).value < NENV && Live(s, Choose(s, c).value)
  {
    ChoiceCanRun(s, c);
  }

  lemma YieldKeepsIdentities(s: Sys, c: nat, k: Clock)
    requires InKernel(s, c)
    ensures SameIdentities(s, Yield(s, c, k))
  {
    hide Choose, InKernel, Prepared, SwitchTo, Halt, SameIdentities;
    PreparedKeepsIdentities(s, c, k);
    PreparedKeepsKernel(s, c, k);
    var t := Prepared(s, c, k);
    ChoiceFacts(t, c);
    match Choose(t, c)
    case Some(e) =>
      SwitchKeepsIdentities(t, c, e);
      SameIdentitiesTrans(s, t, SwitchTo(t, c, e));
    case None =>
      HaltKeepsIdentities(t, c);
      SameIdentitiesTrans(s, t, Halt(t, c));
  }

  lemma FinishKeepsIdentities(o: Outcome, c: nat, k: Clock)
    requires InKernel(o.sys, c)
    ensures SameIdentities(o.sys, Finish(o, c, k))
  {
    YieldKeepsIdentities(o.sys, c, k);
    if o.sys.cur[c].Some? {
      SwitchKeepsIdentities(o.sys, c, o.sys.cur[c].value);
    }
    hide SwitchTo, Yield;
  }

  // ---------------------------------------------------------------- runs

  datatype Msg = Msg(sender: int, value: int)

  /** Where an environment is inside the library's ipc_recv. */
  datatype Phase = Idle | Blocked | HasFrom(sender: int)

  /** The kernel's table, each slot's place in ipc_recv, and what has happened to the slot's
      present occupant: messages sent to it, messages its ipc_recv has returned. */
  datatype World = World(sys: Sys, allocs: seq<nat>, phase: seq<Phase>, sentTo: seq<seq<Msg>>, gotBy: seq<seq<Msg>>)

  datatype Step =
    | Create                                    // env_create while booting
    | Enter(c: nat, call: Call, k: Clock)       // one kernel entry of CPU c
    | ReadFrom(c: nat)                          // user mode: *from_env_store = thisenv->env_ipc_from
    | ReadValue(c: nat)                         // user mode: thisenv->env_ipc_value, returned

  ghost predicate InPhase(w: World, e: nat)
    requires Sized(w.sys) && |w.phase| == |w.sentTo| == |w.gotBy| == NENV && e < NENV
  {
    var s := w.sys;
    match w.phase[e]
    case Idle => !s.recving[e] && w.sentTo[e] == w.gotBy[e]
    case Blocked => w.sentTo[e] == w.gotBy[e] + if s.recving[e] then [] else [Msg(s.from[e], s.value[e])]
    case HasFrom(f) =>
      !s.recving[e] && f == s.from[e] && w.sentTo[e] == w.gotBy[e] + [Msg(s.from[e], s.value[e])]
  }

  ghost predicate WorldOk(w: World) {
    && LifecycleOk(w.sys) && |w.allocs| == |w.phase| == |w.sentTo| == |w.gotBy| == NENV
    && (forall e: nat | e < NENV :: w.sys.id[e] == IdAfter(w.allocs[e], e))
    && (forall e: nat | Live(w.sys, e) :: w.allocs[e] > 0 && InPhase(w, e))
  }

  /** The running environment of `c`, in user mode. */
  ghost predicate AtUser(w: World, c: nat) {
    WorldOk(w) && !w.sys.stopped && c < |w.sys.cur| && w.sys.cur[c].Some?
  }

  ghost predicate Enabled(w: World, st: Step) {
    WorldOk(w) &&
    match st
    case Create => !w.sys.stopped && w.sys.free != []
    case Enter(c, call, k) =>
      CanTrap(w.sys, c, call) &&
      (call.SysRecv? && w.sys.cur[c].Some? ==> w.sys.cur[c].value < NENV && w.phase[w.sys.cur[c].value].Idle?)
    case ReadFrom(c) => AtUser(w, c) && w.phase[w.sys.cur[c].value].Blocked?
    case ReadValue(c) => AtUser(w, c) && w.phase[w.sys.cur[c].value].HasFrom?
  }

  /** What a kernel entry means for message boxes and slots. */
  datatype Event = Silent | Sent(to: nat, msg: Msg) | Asked(who: nat) | Born(slot: nat)

  function CallEvent(s: Sys, c: nat, call: Call): Event
    requires Placed(s) && c < |s.cur| && s.cur[c].Some? && s.cur[c].value < NENV
  {
    var me := s.cur[c].value;
    match call
    case SysTrySend(envid, value, pageError) =>
      var e := Lookup(s, c, envid, false);
      if e.Some? && s.recving[e.value] && pageError >= 0 then Sent(e.value, Msg(s.id[me], value)) else Silent
    case SysRecv(_) => Asked(me)
    case SysExofork(memory) => if s.free != [] && memory then Born(s.free[0]) else Silent
    case _ => Silent
  }

  function EnterEvent(s: Sys, c: nat, call: Call): Event
    requires CanTrap(s, c, call)
  {
    if s.cur[c].None? || s.status[s.cur[c].value] == DYING then Silent else CallEvent(s, c, call)
  }

  /** `ev` is all that happened to identities and message boxes between `s` and `t`. */
  ghost predicate Follows(s: Sys, t: Sys, ev: Event) {
    && Sized(s) && Sized(t) && |t.cur| == |s.cur|
    && (forall e: nat :: Live(t, e) ==> Live(s, e) || ev == Born(e))
    && match ev
       case Silent => t.id == s.id && t.recving == s.recving && t.from == s.from && t.value == s.value
       case Sent(to, msg) =>
         to < NENV && s.recving[to] && t.id == s.id && t.recving == s.recving[to := false] &&
         t.from == s.from[to := msg.sender] && t.value == s.value[to := msg.value]
       case Asked(who) =>
         who < NENV && t.id == s.id && t.recving == s.recving[who := true] && t.from == s.from && t.value == s.value
       case Born(e) =>
         e < NENV && !Live(s, e) && t.id == s.id[e := NextId(s.id[e], e)] && t.recving == s.recving[e := false] &&
         t.from == s.from && t.value == s.value
  }

  function Record(w: World, t: Sys, ev: Event): World
    requires |w.allocs| == |w.phase| == |w.sentTo| == |w.gotBy| == NENV
  {
    var n := w.(sys := t);
    match ev
    case Sent(to, msg) => if to < NENV then n.(sentTo := n.sentTo[to := n.sentTo[to] + [msg]]) else n
    case Asked(who) => if who < NENV then n.(phase := n.phase[who := Blocked]) else n
    case Born(e) =>
      if e < NENV then World(t, n.allocs[e := n.allocs[e] + 1], n.phase[e := Idle], n.sentTo[e := []], n.gotBy[e := []])
      else n
    case Silent => n
  }

  function Next(w: World, st: Step): World
    requires Enabled(w, st)
  {
    match st
    case Create =>
      assert w.sys.free[0] in w.sys.free;
      Record(w, Alloc(w.sys, 0), Born(w.sys.free[0]))
    case Enter(c, call, k) => Record(w, Trap(w.sys, c, call, k), EnterEvent(w.sys, c, call))
    case ReadFrom(c) =>
      var e := w.sys.cur[c].value;
      w.(phase := w.phase[e := HasFrom(w.sys.from[e])])
    case ReadValue(c) =>
      var e := w.sys.cur[c].value;
      w.(phase := w.phase[e := Idle], gotBy := w.gotBy[e := w.gotBy[e] + [Msg(w.phase[e].sender, w.sys.value[e])]])
  }

  /** The history stays true to the table: the heart of exactly-once delivery. */
  lemma RecordKeepsWorld(w: World, t: Sys, ev: Event)
    requires WorldOk(w) && Follows(w.sys, t, ev) && LifecycleOk(t)
    requires ev.Asked? ==> ev.who < NENV && w.phase[ev.who] == Idle
    ensures WorldOk(Record(w, t, ev))
  {
    hide LifecycleOk, NextId, IdAfter;
    var n := Record(w, t, ev);
    forall x: nat | x < NENV
      ensures n.sys.id[x] == IdAfter(n.allocs[x], x)
    {
      IdAfterAnother(w.allocs[x], x);
    }
    forall x: nat | Live(t, x)
      ensures n.allocs[x] > 0 && InPhase(n, x)
    {
      if ev != Born(x) {
        assert Live(w.sys, x) && InPhase(w, x);
      }
    }
  }

  lemma IdAfterAnother(k: nat, e: nat)
    ensures IdAfter(k + 1, e) == NextId(IdAfter(k, e), e)
  {
  }

  lemma FollowsThenSame(s: Sys, r: Sys, t: Sys, ev: Event)
    requires Follows(s, r, ev) && SameIdentities(r, t)
    ensures Follows(s, t, ev)
  {
  }

  lemma DestroyFollows(s: Sys, c: nat, e: nat)
    requires Placed(s) && c < |s.cur| && Live(s, e)
    ensures Follows(s, Destroy(s, c, e).sys, Silent)
  {
    hide NoDup;
  }

  lemma ReprioritizeFollows(s: Sys, e: nat, prio: nat)
    requires Sized(s) && Live(s, e) && s.qnum[e] < NQUEUES
    ensures Follows(s, Reprioritize(s, e, prio), Silent)
  {
  }

  lemma ExoforkFollows(s: Sys, c: nat, memory: bool)
    requires Placed(s) && c < |s.cur| && s.cur[c].Some? && s.cur[c].value < NENV
    ensures Follows(s, Exofork(s, c, memory).sys, CallEvent(s, c, SysExofork(memory)))
  {
    hide NoDup, NextId;
    if s.free != [] && memory {
      assert s.free[0] in s.free;
    }
  }

  /** A dispatched call does to message boxes what its event says. */
  lemma DispatchFollows(s: Sys, c: nat, call: Call)
    requires Running(s, c)
    ensures Follows(s, Dispatch(s, c, call).sys, CallEvent(s, c, call))
  {
    hide Release, Reprioritize, Exofork, Destroy, IsCurrent, CpusDiffer, NoDup;
    match call
    case Fault => DestroyFollows(s, c, s.cur[c].value);
    case SysDestroy(envid) =>
      LookupIsLive(s, c, envid, true);
      if Lookup(s, c, envid, true).Some? {
        DestroyFollows(s, c, Lookup(s, c, envid, true).value);
      }
    case SysExofork(memory) => ExoforkFollows(s, c, memory);
    case SysChangePrio(envid, prio) =>
      LookupIsLive(s, c, envid, true);
      if Lookup(s, c, envid, true).Some? && prio >= 0 {
        ReprioritizeFollows(s, Lookup(s, c, envid, true).value, prio);
      }
    case SysSetStatus(envid, _) => LookupIsLive(s, c, envid, true);
    case SysTrySend(envid, _, _) => LookupIsLive(s, c, envid, false);
    case _ =>
  }

  /** An environment that is running has everything it was sent in its hands. */
  lemma CurrentIsNotReceiving(w: World, c: nat)
    requires AtUser(w, c)
    ensures Live(w.sys, w.sys.cur[c].value) && !w.sys.recving[w.sys.cur[c].value]
  {
    assert Busy(w.sys, w.sys.cur[c].value);
  }

  lemma ReadsKeepWorld(w: World, st: Step)
    requires Enabled(w, st) && (st.ReadFrom? || st.ReadValue?)
    ensures WorldOk(Next(w, st))
  {
    CurrentIsNotReceiving(w, st.c);
    var n := Next(w, st);
    forall e: nat | Live(n.sys, e)
      ensures n.allocs[e] > 0 && InPhase(n, e)
    {
      assert InPhase(w, e);
    }
  }

  lemma CreateKeepsWorld(w: World)
    requires Enabled(w, Create)
    ensures WorldOk(Next(w, Create))
  {
    assert w.sys.free[0] in w.sys.free;
    var e, t := w.sys.free[0], Alloc(w.sys, 0);
    AllocKeepsPlaced(w.sys, 0);
    forall x: nat | Busy(t, x)
      ensures IsCurrent(t, x)
    {
      assert Busy(w.sys, x) && IsCurrent(w.sys, x);
    }
    hide NextId;
    RecordKeepsWorld(w, t, Born(e));
  }

  lemma EnterKeepsWorld(w: World, c: nat, call: Call, k: Clock)
    requires Enabled(w, Enter(c, call, k))
    ensures WorldOk(Next(w, Enter(c, call, k)))
  {
    EnterFollows(w.sys, c, call, k);
    hide Trap, EnterEvent, Guard, Follows, Outside;
    RecordKeepsWorld(w, Trap(w.sys, c, call, k), EnterEvent(w.sys, c, call));
  }

  lemma AskedByReceiver(s: Sys, c: nat, call: Call)
    requires Placed(s) && c < |s.cur| && s.cur[c].Some? && s.cur[c].value < NENV
    ensures CallEvent(s, c, call).Asked? ==> call.SysRecv? && s.cur[c] == Some(CallEvent(s, c, call).who)
  {
  }

  lemma EnterFollows(s: Sys, c: nat, call: Call, k: Clock)
    requires CanTrap(s, c, call)
    ensures Follows(s, Trap(s, c, call, k), EnterEvent(s, c, call))
    ensures EnterEvent(s, c, call).Asked? ==>
              call.SysRecv? && s.cur[c] == Some(EnterEvent(s, c, call).who) && EnterEvent(s, c, call).who < NENV
  {
    hide Yield, Dispatch, Release, CallEvent, Guard, Finish;
    if s.cur[c].None? {
      YieldKeepsIdentities(s, c, k);
    } else if s.status[s.cur[c].value] == DYING {
      ReapedKeepsKernel(s, c);
      YieldKeepsIdentities(Reaped(s, c), c, k);
      DestroyFollows(s, c, s.cur[c].value);
      FollowsThenSame(s, Reaped(s, c), Trap(s, c, call, k), Silent);
    } else {
      assert Busy(s, s.cur[c].value) && Running(s, c);
      DispatchKeepsInvariantExactly(s, c, call);
      DispatchFollows(s, c, call);
      AskedByReceiver(s, c, call);
      FinishKeepsIdentities(Dispatch(s, c, call), c, k);
      FollowsThenSame(s, Dispatch(s, c, call).sys, Trap(s, c, call, k), CallEvent(s, c, call));
    }
  }

  lemma NextKeepsWorld(w: World, st: Step)
    requires Enabled(w, st)
    ensures WorldOk(Next(w, st))
  {
    match st
    case Create => CreateKeepsWorld(w);
    case Enter(c, call, k) => EnterKeepsWorld(w, c, call, k);
    case ReadFrom(_) => ReadsKeepWorld(w, st);
    case ReadValue(_) => ReadsKeepWorld(w, st);
  }

  function Go(w: World, st: Step): (n: World)
    requires Enabled(w, st)
    ensures WorldOk(n)
  {
    NextKeepsWorld(w, st);
    Next(w, st)
  }

  ghost predicate IsRun(w: World, steps: seq<Step>)
    requires WorldOk(w)
    decreases |steps|
  {
    |steps| == 0 || (Enabled(w, steps[0]) && IsRun(Go(w, steps[0]), steps[1..]))
  }

  function Final(w: World, steps: seq<Step>): World
    requires WorldOk(w) && IsRun(w, steps)
    decreases |steps|
  {
    if |steps| == 0 then w else Final(Go(w, steps[0]), steps[1..])
  }

  /** After env_init: every slot free, in array order, on a machine with any number of CPUs. */
  ghost predicate Booted(w: World) {
    var s := w.sys;
    && Sized(s) && !s.stopped
    && (forall e: nat | e < NENV :: s.status[e] == FREE && s.id[e] == 0 && !s.recving[e])
    && (forall i: nat | i < NQUEUES :: s.queues[i] == [])
    && |s.free| == NENV && (forall e: nat | e < NENV :: s.free[e] == e)
    && (forall b: nat | b < |s.cur| :: s.cur[b] == None)
    && |w.allocs| == |w.phase| == |w.sentTo| == |w.gotBy| == NENV && (forall e: nat | e < NENV :: w.allocs[e] == 0)
  }

  lemma BootedIsOk(w: World)
    requires Booted(w)
    ensures WorldOk(w)
  {
    var s := w.sys;
    assert forall k: nat | k < |s.free| :: s.free[k] == k;
    assert NoDup(s.free);
    forall e: nat
      ensures e in s.free <==> e < NENV && s.status[e] == FREE
    {
      assert e < NENV ==> s.free[e] == e;
    }
  }

  /** A run from boot; nothing is assumed of its states. */
  ghost predicate RunFromBoot(w: World, steps: seq<Step>) {
    Booted(w) && (BootedIsOk(w); IsRun(w, steps))
  }

  function AfterRun(w: World, steps: seq<Step>): World
    requires RunFromBoot(w, steps)
  {
    BootedIsOk(w);
    Final(w, steps)
  }

  /** MAIN RESULT: whatever the CPUs do and in whatever order, no environment is current on two
      of them, and while the lock is free an environment is RUNNING or DYING exactly when it is
      some CPU's curenv. */
  lemma {:induction false} EveryRunKeepsOneCpuEach(w: World, steps: seq<Step>)
    requires RunFromBoot(w, steps)
    ensures var s := AfterRun(w, steps).sys;
            && (forall a: nat, b: nat | a < b < |s.cur| && s.cur[a].Some? :: s.cur[a] != s.cur[b])
            && (!s.stopped ==> forall e: nat :: Busy(s, e) <==> IsCurrent(s, e))
            && (s.stopped ==> forall e: nat :: !Busy(s, e) && !(Live(s, e) && s.status[e] == RUNNABLE))
  {
    BootedIsOk(w);
    FinalIsOk(w, steps);
  }

  lemma {:induction false} FinalIsOk(w: World, steps: seq<Step>)
    requires WorldOk(w) && IsRun(w, steps)
    ensures WorldOk(Final(w, steps))
    decreases |steps|
  {
    if |steps| > 0 {
      FinalIsOk(Go(w, steps[0]), steps[1..]);
    }
  }

  // ---------------------------------------------------------------- messages, exactly once

  /** Messages returned to a receiver are the messages sent to it, in order, each once; at most
      the last one is still waiting, and then it is intact in the receiver's slot. */
  lemma {:induction false} EveryRunDeliversExactlyOnce(w: World, steps: seq<Step>, e: nat)
    requires RunFromBoot(w, steps) && Live(AfterRun(w, steps).sys, e)
    ensures var n := AfterRun(w, steps);
            Sized(n.sys) && e < |n.sentTo| == |n.gotBy| == |n.phase| &&
            (n.sentTo[e] == n.gotBy[e] ||
             (n.sentTo[e] == n.gotBy[e] + [Msg(n.sys.from[e], n.sys.value[e])] && !n.phase[e].Idle? && !n.sys.recving[e]))
  {
    BootedIsOk(w);
    FinalIsOk(w, steps);
    assert InPhase(Final(w, steps), e);
  }

  /** A send succeeds only while its receiver waits with nothing unread, so it overwrites
      nothing; any other result changes nothing at all, so retrying is harmless. */
  lemma SendNeverOverwrites(w: World, c: nat, envid: int, value: int, pageError: int)
    requires WorldOk(w) && !w.sys.stopped && c < |w.sys.cur| && Running(w.sys, c)
    ensures var o, ev := TrySend(w.sys, c, envid, value, pageError), CallEvent(w.sys, c, SysTrySend(envid, value, pageError));
            && o.Returned?
            && (o.r == E_OK <==> ev.Sent?)
            && (o.r != E_OK ==> o.sys == w.sys)
            && (ev.Sent? ==> ev.to < NENV && o.sys.status == w.sys.status[ev.to := RUNNABLE])
            && (ev.Sent? ==> w.phase[ev.to] == Blocked && w.sentTo[ev.to] == w.gotBy[ev.to] && w.sys.recving[ev.to]
                             && ev.msg == Msg(w.sys.id[w.sys.cur[c].value], value))
  {
    LookupIsLive(w.sys, c, envid, false);
    var found := Lookup(w.sys, c, envid, false);
    if found.Some? {
      assert InPhase(w, found.value);
    }
  }

  // ---------------------------------------------------------------- names

  /** envid2env without a permission check: a nonzero id names exactly the live environment
      that holds it, and live environments hold different positive ids. */
  lemma LookupIsExact(w: World, c: nat, envid: int, e: nat)
    requires WorldOk(w) && c < |w.sys.cur| && w.sys.cur[c].Some? && envid != 0
    ensures w.sys.cur[c].value < NENV
    ensures Lookup(w.sys, c, envid, false) == Some(e) <==> Live(w.sys, e) && w.sys.id[e] == envid
  {
    if Live(w.sys, e) {
      LiveIdsAreDistinct(w, e, e);
    }
  }

  lemma LiveIdsAreDistinct(w: World, e: nat, f: nat)
    requires WorldOk(w) && Live(w.sys, e) && Live(w.sys, f)
    ensures w.sys.id[e] > 0 && w.sys.id[e] % NENV == e
    ensures w.sys.id[e] == w.sys.id[f] ==> e == f
  {
    IdShape(w.allocs[e], e);
    IdShape(w.allocs[f], f);
  }

  lemma IdShape(k: nat, e: nat)
    requires k > 0 && e < NENV
    ensures IdAfter(k, e) > 0 && IdAfter(k, e) % NENV == e
  {
    hide IdAfter;
    IdInClosedForm(k, e);
    assert IdAfter(k, e) == NENV * (4 * ((k - 1) % CYCLE + 1)) + e;
  }

  // ---------------------------------------------------------------- what the missing checks allow

  /** sys_env_set_status on a child that runs on another CPU lets this CPU run it too. */
  lemma UnguardedStatusRunsTwice(s: Sys, c: nat, b: nat, envid: int)
    requires Running(s, c) && b < |s.cur| && b != c
    requires s.cur[b].Some? && Lookup(s, c, envid, true) == s.cur[b]
    ensures var e, t := s.cur[b].value, SetStatus(s, c, envid, RUNNABLE).sys;
            && e < NENV && Sized(t) && c < |t.cur|
            && CanRun(t, c, e)
            && SwitchTo(t, c, e).cur[c] == SwitchTo(t, c, e).cur[b] == Some(e)
  {
    LookupIsLive(s, c, envid, true);
  }

  /** sys_ipc_recv with a bad address leaves a running environment open to a send, after which
      another CPU may run it as well. */
  lemma UnguardedReceiveRunsTwice(s: Sys, c: nat, b: nat, envid: int, value: int)
    requires Running(s, c) && b < |s.cur| && b != c && s.cur[b].Some? && Busy(s, s.cur[b].value)
    requires Lookup(Recv(s, c, false).sys, b, envid, false) == s.cur[c]
    ensures var me, t := s.cur[c].value, TrySend(Recv(s, c, false).sys, b, envid, value, 0).sys;
            && me < NENV && Sized(t) && b < |t.cur|
            && CanRun(t, b, me)
            && SwitchTo(t, b, me).cur[b] == SwitchTo(t, b, me).cur[c] == Some(me)
  {
  }

  /** Destroying a zombie frees the slot under the CPU that still runs it. */
  lemma UnguardedDestroyFreesRunning(s: Sys, c: nat, b: nat, e: nat)
    requires Running(s, c) && b < |s.cur| && s.cur[b] == Some(e) && Live(s, e) && s.status[e] == DYING
    ensures var t := Destroy(s, c, e).sys; Sized(t) && t.status[e] == FREE && b < |t.cur| && t.cur[b] == Some(e) && e in t.free
  {
  }
}
