/** What scheduling decisions and system calls do to the environments they concern, and that they do
    nothing to the others: the table of `Lifecycle` seen from outside. */
module Calls {
  import opened Common
  import opened Mlfq
  import opened Lifecycle

  // ---------------------------------------------------------------- decisions

  /** A decision stops nobody and starts nobody: it only says who runs here. */
  lemma YieldKeepsRunnish(s: Sys, c: nat, k: Clock, e: nat)
    requires InKernel(s, c) && Live(s, e)
    ensures var t := Yield(s, c, k);
            && e < |t.status| && |t.cur| == |s.cur|
            && (Runnish(t.status[e]) <==> Runnish(s.status[e])) && (t.status[e] == DYING <==> s.status[e] == DYING)
            && (s.cur[c] != Some(e) && t.cur[c] != Some(e) ==> t.status[e] == s.status[e])
            && (t.cur[c] == Some(e) && !t.stopped ==> t.status[e] == RUNNING)
            && (s.cur[c] == Some(e) && t.cur[c] != Some(e) && Runnish(s.status[e]) ==> t.status[e] == RUNNABLE)
            && forall b: nat | b < |s.cur| && b != c :: t.cur[b] == s.cur[b]
  {
    hide Choose, Reprioritize, Boosted, CanRun, InKernel, NoDup;
    PreparedKeepsKernel(s, c, k);
    PreparedLeavesStatuses(s, c, k);
    DecisionOf(s, c, k);
    assert Choose(Prepared(s, c, k), c).None? ==> !Eligible(s, e, s.cur[c]);
    hide Prepared;
  }

  lemma PreparedLeavesStatuses(s: Sys, c: nat, k: Clock)
    requires InKernel(s, c)
    ensures var t := Prepared(s, c, k); t.status == s.status && t.cur == s.cur && t.stopped == s.stopped && Sized(t)
  {
  }

  /** Who is chosen, and that a CPU halts with nobody to run. */
  lemma DecisionOf(s: Sys, c: nat, k: Clock)
    requires InKernel(s, c)
    ensures Sized(s) && c < |s.cur| && (s.cur[c].Some? ==> s.cur[c].value < NENV && s.status[s.cur[c].value] != DYING)
    ensures var e := Choose(Prepared(s, c, k), c);
            && (e.Some? ==> e.value < NENV && Eligible(s, e.value, s.cur[c]))
            && (e.None? ==> forall x: nat :: !Eligible(s, x, s.cur[c]))
  {
    PreparedKeepsKernel(s, c, k);
    PreparedLeavesStatuses(s, c, k);
    ChoiceCanRun(Prepared(s, c, k), c);
    var t := Prepared(s, c, k);
    hide Choose, Prepared;
    if Choose(t, c).None? {
      forall x: nat
        ensures !Eligible(s, x, s.cur[c])
      {
        assert !CanRun(t, c, x);
      }
    }
  }

  /** The kernel stops for good exactly when every environment waits for something. */
  lemma YieldStopsExactly(s: Sys, c: nat, k: Clock)
    requires InKernel(s, c)
    ensures Yield(s, c, k).stopped <==> forall e: nat | Live(s, e) :: s.status[e] == NOT_RUNNABLE
    ensures !Yield(s, c, k).stopped ==> c < |Yield(s, c, k).cur| && Yield(s, c, k).cur[c] == Choose(Prepared(s, c, k), c)
  {
    hide Choose, Reprioritize, Boosted, CanRun, NoDup, Placed, CpusDiffer, IsCurrent;
    assert !s.stopped;
    hide InKernel;
    PreparedKeepsKernel(s, c, k);
    PreparedLeavesStatuses(s, c, k);
    DecisionOf(s, c, k);
    var t := Prepared(s, c, k);
    hide Prepared;
    match Choose(t, c)
    case Some(e) => assert Live(s, e) && s.status[e] != NOT_RUNNABLE;
    case None =>
      if Halt(t, c).stopped {
        forall e: nat | Live(s, e)
          ensures s.status[e] == NOT_RUNNABLE
        {
          assert !Runnish(t.status[e]);
        }
      }
  }

  /** After a timer tick, a yield, or a call that concerns another matter, everybody who could go on
      still can, but for a zombie that was running here. */
  lemma TickKeepsRunnish(s: Sys, c: nat, call: Call, k: Clock, e: nat)
    requires CanTrap(s, c, call) && (call.Timer? || call.SysYield? || call.Other?) && Live(s, e)
    requires s.cur[c] == Some(e) ==> s.status[e] != DYING
    ensures var t := Trap(s, c, call, k); e < |t.status| && (Runnish(t.status[e]) <==> Runnish(s.status[e]))
  {
    hide Choose, NoDup, Yield, SwitchTo, IsCurrent, CpusDiffer;
    if s.cur[c].None? {
      YieldKeepsRunnish(s, c, k, e);
    } else {
      assert Busy(s, s.cur[c].value);
      if s.status[s.cur[c].value] == DYING {
        ReapedKeepsKernel(s, c);
        hide Remove;
        YieldKeepsRunnish(Reaped(s, c), c, k, e);
      } else {
        DispatchKeepsInvariantExactly(s, c, call);
        YieldKeepsRunnish(s, c, k, e);
        SwitchBack(s, c);
      }
    }
  }

  /** Going back to where the trap came from changes nothing. */
  lemma SwitchBack(s: Sys, c: nat)
    requires Sized(s) && c < |s.cur| && s.cur[c].Some? && s.cur[c].value < NENV && s.status[s.cur[c].value] == RUNNING
    ensures SwitchTo(s, c, s.cur[c].value) == s
  {
    var e := s.cur[c].value;
    assert s.status[e := RUNNABLE][e := RUNNING] == s.status && s.cur[c := Some(e)] == s.cur;
  }

  // ---------------------------------------------------------------- queues

  /** `x` stands before `y`. */
  predicate Ahead(q: seq<nat>, x: nat, y: nat) {
    x in q && y in q && IndexOf(q, x) < IndexOf(q, y)
  }

  lemma IndexIs(q: seq<nat>, e: nat, k: nat)
    requires NoDup(q) && k < |q| && q[k] == e
    ensures IndexOf(q, e) == k
  {
  }

  lemma IndexAfterRemove(q: seq<nat>, e: nat, x: nat)
    requires NoDup(q) && x != e && x in q && e in q
    ensures IndexOf(Remove(q, e), x) == if IndexOf(q, x) < IndexOf(q, e) then IndexOf(q, x) else IndexOf(q, x) - 1
  {
    RemoveMembers(q, e);
    var i, k := IndexOf(q, x), IndexOf(q, e);
    assert i != k;
    IndexIs(Remove(q, e), x, if i < k then i else i - 1);
  }

  lemma RemoveKeepsOrder(q: seq<nat>, e: nat, x: nat, y: nat)
    requires NoDup(q) && x != e && y != e
    ensures Ahead(Remove(q, e), x, y) <==> Ahead(q, x, y)
  {
    hide IndexOf, NoDup;
    RemoveMembers(q, e);
    if x in q && y in q && e in q {
      IndexAfterRemove(q, e, x);
      IndexAfterRemove(q, e, y);
      DifferentPlaces(q, x, e);
      DifferentPlaces(q, y, e);
    }
  }

  lemma DifferentPlaces(q: seq<nat>, x: nat, y: nat)
    requires x in q && y in q && x != y
    ensures IndexOf(q, x) != IndexOf(q, y)
  {
  }

  lemma AppendKeepsOrder(q: seq<nat>, e: nat, x: nat, y: nat)
    requires NoDup(q) && e !in q && x != e && y != e
    ensures Ahead(q + [e], x, y) <==> Ahead(q, x, y)
  {
    AppendNoDup(q, e);
    var more := q + [e];
    assert forall j: nat | j < |q| :: more[j] == q[j];
    if x in q && y in q {
      var i, j := IndexOf(q, x), IndexOf(q, y);
      hide IndexOf;
      IndexIs(more, x, i);
      IndexIs(more, y, j);
    }
  }

  /** A new priority sends an environment to the end of its queue and lets nobody else pass. */
  lemma ReprioritizeKeepsOrder(s: Sys, e: nat, prio: nat, i: nat, x: nat, y: nat)
    requires Placed(s) && Live(s, e) && prio < NQUEUES && i < NQUEUES && x != e && y != e
    ensures var t := Reprioritize(s, e, prio);
            && t.qnum[e] == prio && |t.queues[prio]| > 0 && t.queues[prio][|t.queues[prio]| - 1] == e
            && t.qnum == s.qnum[e := prio] && (Ahead(t.queues[i], x, y) <==> Ahead(s.queues[i], x, y))
  {
    hide Remove, IndexOf, Ahead;
    var old_ := s.queues[s.qnum[e]];
    var rest := Remove(old_, e);
    RemoveMembers(old_, e);
    RemoveKeepsOrder(old_, e, x, y);
    if i == prio {
      if prio == s.qnum[e] {
        AppendKeepsOrder(rest, e, x, y);
      } else {
        assert e !in s.queues[prio];
        AppendKeepsOrder(s.queues[prio], e, x, y);
      }
    }
  }

  /** Where things stand in two sequences put together. */
  lemma ConcatOrder(a: seq<nat>, b: seq<nat>, x: nat, y: nat)
    requires NoDup(a + b)
    ensures x in a && y in b ==> Ahead(a + b, x, y) && !Ahead(a + b, y, x)
    ensures x in a && y in a ==> (Ahead(a + b, x, y) <==> Ahead(a, x, y))
    ensures x in b && y in b ==> (Ahead(a + b, x, y) <==> Ahead(b, x, y))
  {
    var all := a + b;
    forall z: nat
      ensures z in a ==> IndexOf(all, z) == IndexOf(a, z)
      ensures z in b ==> IndexOf(all, z) == |a| + IndexOf(b, z)
    {
      if z in a {
        IndexIs(all, z, IndexOf(a, z));
      }
      if z in b {
        IndexIs(all, z, |a| + IndexOf(b, z));
      }
    }
    hide IndexOf;
  }

  lemma {:induction false} FlattenOrder(qs: seq<seq<nat>>, i: nat, j: nat, x: nat, y: nat)
    requires Separate(qs) && i < |qs| && j < |qs| && x in qs[i] && y in qs[j]
    ensures Ahead(Flatten(qs), x, y) <==> i < j || (i == j && Ahead(qs[i], x, y))
    decreases |qs|
  {
    var n := |qs| - 1;
    var rest := qs[..n];
    FlattenNoDup(qs);
    ConcatOrder(Flatten(rest), qs[n], x, y);
    ConcatOrder(Flatten(rest), qs[n], y, x);
    hide Ahead, Flatten;
    assert forall k: nat | k < n :: rest[k] == qs[k];
    if i < n {
      FlattenMembers(rest, x);
      assert x in rest[i];
    }
    if j < n {
      FlattenMembers(rest, y);
      assert y in rest[j];
    }
    if i < n && j < n {
      FlattenOrder(rest, i, j, x, y);
    }
  }

  /** boost lines everybody up in the first queue, the higher queues first, each in its order. */
  lemma BoostKeepsOrder(s: Sys, x: nat, y: nat)
    requires Placed(s) && Live(s, x) && Live(s, y)
    ensures var t := Boosted(s);
            && t.qnum[x] == 0 && x in t.queues[0]
            && s.qnum[x] < NQUEUES
            && (Ahead(t.queues[0], x, y) <==> s.qnum[x] < s.qnum[y] || (s.qnum[x] == s.qnum[y] && Ahead(s.queues[s.qnum[x]], x, y)))
  {
    hide Ahead, NoDup;
    PlacedIsSeparate(s);
    assert Member(s, s.qnum[x], x) && Member(s, s.qnum[y], y);
    FlattenOrder(s.queues, s.qnum[x], s.qnum[y], x, y);
    FlattenMembers(s.queues, x);
  }

  /** Which queue an environment is in after a decision: the first after a boost; one further down,
      if there is one, for who was running when its time in the queue was over; otherwise the same. */
  lemma DecisionMovesQueues(s: Sys, c: nat, k: Clock, e: nat)
    requires InKernel(s, c) && Live(s, e)
    ensures var t := Yield(s, c, k);
            && e < |t.qnum| && e < |s.qnum| && s.qnum[e] < NQUEUES
            && t.qnum[e] == if k.boost then 0
                            else if k.downgrade && s.cur[c] == Some(e) && s.qnum[e] < NQUEUES - 1 then s.qnum[e] + 1
                            else s.qnum[e]
  {
    hide Choose, NoDup, CpusDiffer, IsCurrent;
    DecisionOf(s, c, k);
    var t := Prepared(s, c, k);
    PreparedLeavesStatuses(s, c, k);
    assert t.qnum == Yield(s, c, k).qnum by {
      hide Prepared;
    }
  }

  // ---------------------------------------------------------------- names

  /** envid2env: 0 is the caller; with the permission check any other id names the caller or a child of
      its own that is live with that id, and nobody else. */
  lemma LookupWithPermissionIsExact(w: World, c: nat, envid: int, e: nat)
    requires WorldOk(w) && c < |w.sys.cur| && w.sys.cur[c].Some?
    ensures w.sys.cur[c].value < NENV && forall check :: Lookup(w.sys, c, 0, check) == w.sys.cur[c]
    ensures var s, me := w.sys, w.sys.cur[c].value;
            envid != 0 ==>
              (Lookup(s, c, envid, true) == Some(e) <==>
                 Live(s, e) && s.id[e] == envid && (e == me || s.parent[e] == s.id[me]))
  {
    if Live(w.sys, e) {
      LiveIdsAreDistinct(w, e, e);
    }
  }

  lemma NextIdNames(id: int, e: nat)
    requires e < NENV
    ensures NextId(id, e) > 0 && NextId(id, e) % NENV == e
  {
    var shifted := Wrap32(id + GENERATION);
    var generation := shifted - shifted % NENV;
    assert generation == shifted / NENV * NENV;
    var g := if generation <= 0 then 4 else shifted / NENV;
    assert NextId(id, e) == NENV * g + e;
  }

  /** Whatever the call says of slot `e`, it says of no other. */
  ghost predicate OnlySlot(s: Sys, t: Sys, e: nat) {
    && Sized(s) && Sized(t)
    && forall x: nat | x < NENV && x != e ::
         && t.status[x] == s.status[x] && t.id[x] == s.id[x] && t.parent[x] == s.parent[x] && t.qnum[x] == s.qnum[x]
         && t.recving[x] == s.recving[x] && t.from[x] == s.from[x] && t.value[x] == s.value[x]
  }

  // ---------------------------------------------------------------- calls

  /** sys_exofork answers with an id by which the caller can go on to name the child: it cannot run,
      stands last in its parent's queue, and waits for no message.  Nobody else is concerned, and a call
      that fails changes nothing. */
  lemma ExoforkReturnsChild(s: Sys, c: nat, memory: bool)
    requires Running(s, c)
    ensures var o := Exofork(s, c, memory);
            && o.Returned? && (o.r < 0 <==> s.free == [] || !memory) && (o.r < 0 ==> o.sys == s)
            && (o.r == E_NO_FREE_ENV <==> s.free == []) && (o.r == E_NO_MEM <==> s.free != [] && !memory)
    ensures var o, me := Exofork(s, c, memory), s.cur[c].value;
            s.free != [] && memory ==>
              var e, t := s.free[0], o.sys;
              && e < NENV && !Live(s, e) && me < NENV && OnlySlot(s, t, e) && t.cur == s.cur && s.qnum[me] < NQUEUES
              && Lookup(t, c, o.r, true) == Some(e) && t.id[e] == o.r > 0
              && t.status[e] == NOT_RUNNABLE && t.parent[e] == s.id[me] && !t.recving[e] && t.qnum[e] == s.qnum[me]
              && |t.queues[t.qnum[e]]| > 0 && t.queues[t.qnum[e]][|t.queues[t.qnum[e]]| - 1] == e
  {
    hide NoDup, CpusDiffer, IsCurrent, NextId, Remove;
    if s.free != [] && memory {
      assert s.free[0] in s.free;
      NextIdNames(s.id[s.free[0]], s.free[0]);
    }
  }

  /** env_create: the first free slot holds a new environment that every CPU may run, last in the first
      queue. */
  lemma CreatedCanRun(w: World, b: nat)
    requires Enabled(w, Create) && b < |w.sys.cur|
    ensures var s, t, e := w.sys, Next(w, Create).sys, w.sys.free[0];
            && OnlySlot(s, t, e) && !Live(s, e) && t.cur == s.cur && CanRun(t, b, e) && t.id[e] > 0 && t.id[e] % NENV == e
            && t.parent[e] == 0 && t.qnum[e] == 0 && !t.recving[e] && t.free == s.free[1..] && t.queues[0] == s.queues[0] + [e]
  {
    assert w.sys.free[0] in w.sys.free;
    NextIdNames(w.sys.id[w.sys.free[0]], w.sys.free[0]);
    hide NextId, InPhase, NoDup;
  }

  /** The two calls of a parent make a child that any CPU may run. */
  lemma StartedChildCanRun(s: Sys, c: nat, b: nat)
    requires Running(s, c) && s.free != [] && b < |s.cur|
    ensures var o := Exofork(s, c, true);
            && o.Returned? && Running(o.sys, c)
            && var p := SetStatus(o.sys, c, o.r, RUNNABLE);
               p.Returned? && p.r == E_OK && OnlySlot(o.sys, p.sys, s.free[0]) && CanRun(p.sys, b, s.free[0])
  {
    ExoforkReturnsChild(s, c, true);
    ExoforkKeeps(s, c, true);
    var o := Exofork(s, c, true);
    assert o.sys.cur[c] == s.cur[c];
    hide Exofork, Lookup, InKernel;
  }

  /** sys_env_set_status reaches the caller and its children, and refuses everybody else. */
  lemma SetStatusReachesExactly(w: World, c: nat, e: nat, status: Status)
    requires WorldOk(w) && Running(w.sys, c) && Live(w.sys, e) && (status == RUNNABLE || status == NOT_RUNNABLE)
    ensures w.sys.cur[c].value < NENV
    ensures var s, o := w.sys, SetStatus(w.sys, c, w.sys.id[e], status);
            && o.Returned? && OnlySlot(s, o.sys, e) && o.sys.cur == s.cur && o.sys.queues == s.queues && o.sys.free == s.free
            && if s.cur[c] == Some(e) || s.parent[e] == s.id[s.cur[c].value] then o.r == E_OK && o.sys.status[e] == status
               else o.r == E_BAD_ENV && o.sys == s
  {
    LiveIdsAreDistinct(w, e, e);
    LookupWithPermissionIsExact(w, c, w.sys.id[e], e);
    hide LifecycleOk, InPhase;
    var found := Lookup(w.sys, c, w.sys.id[e], true);
    if found.Some? {
      LookupWithPermissionIsExact(w, c, w.sys.id[e], found.value);
      LookupIsLive(w.sys, c, w.sys.id[e], true);
      LiveIdsAreDistinct(w, e, found.value);
    }
  }

  /** env_destroy: who runs on another CPU is marked, anybody else's slot is free at once and the next
      to be used; the caller gives up its CPU exactly when it has destroyed itself. */
  lemma DestroyFreesOrMarks(s: Sys, c: nat, e: nat)
    requires Running(s, c) && Live(s, e) && s.status[e] != DYING
    ensures var o := Destroy(s, c, e);
            && OnlySlot(s, o.sys, e) && |o.sys.cur| == |s.cur| && (o.Yielded? <==> s.cur[c] == Some(e)) && (o.Returned? ==> o.r == E_OK)
            && (forall b: nat | b < |s.cur| :: o.sys.cur[b] == if s.cur[b] == Some(e) && b == c then None else s.cur[b])
            && if (exists b: nat :: b < |s.cur| && b != c && s.cur[b] == Some(e)) then
                 o.sys.status[e] == DYING && o.sys.id[e] == s.id[e] && o.sys.queues == s.queues && o.sys.free == s.free
               else o.sys.status[e] == FREE && o.sys.free == [e] + s.free && forall i: nat | i < NQUEUES :: e !in o.sys.queues[i]
  {
    hide NoDup, Remove;
    if exists b: nat :: b < |s.cur| && b != c && s.cur[b] == Some(e) {
      var b: nat :| b < |s.cur| && b != c && s.cur[b] == Some(e);
      assert Busy(s, s.cur[b].value);
    } else {
      if s.cur[c] != Some(e) {
        assert !IsCurrent(s, e);
        assert !Busy(s, e);
      }
      ReleaseKeepsPlaced(s, e);
    }
  }

  /** A marked environment is gone after the next kernel entry of its CPU, whatever that was for. */
  lemma ZombieIsReaped(s: Sys, c: nat, call: Call, k: Clock, e: nat)
    requires CanTrap(s, c, call) && s.cur[c] == Some(e) && Live(s, e) && s.status[e] == DYING
    ensures !Live(Trap(s, c, call, k), e)
  {
    hide Yield, NoDup, Remove;
    ReapedKeepsKernel(s, c);
    YieldKeepsIdentities(Reaped(s, c), c, k);
  }

  /** A fault the kernel cannot help with ends the environment. */
  lemma FaultEndsEnvironment(s: Sys, c: nat, k: Clock, e: nat)
    requires CanTrap(s, c, Call.Fault) && s.cur[c] == Some(e)
    ensures !Live(Trap(s, c, Call.Fault, k), e)
  {
    assert Busy(s, e);
    hide Yield, NoDup, Remove, IsCurrent, CpusDiffer;
    if s.status[e] == DYING {
      ZombieIsReaped(s, c, Call.Fault, k, e);
    } else {
      DispatchKeepsInvariantExactly(s, c, Call.Fault);
      DestroyFreesOrMarks(s, c, e);
      var o := Dispatch(s, c, Call.Fault);
      assert !Live(o.sys, e) by {
        assert forall b: nat | b < |s.cur| && b != c :: s.cur[b] != Some(e) by {
          OneCpu(s, c, e);
        }
      }
      YieldKeepsIdentities(o.sys, c, k);
    }
  }

  lemma OneCpu(s: Sys, c: nat, e: nat)
    requires CpusDiffer(s) && c < |s.cur| && s.cur[c] == Some(e)
    ensures forall b: nat | b < |s.cur| && b != c :: s.cur[b] != Some(e)
  {
  }

  /** sys_env_change_priority lowers the caller or a child of its own, never raises anybody. */
  lemma PriorityOnlyFalls(w: World, c: nat, e: nat, prio: int)
    requires WorldOk(w) && Running(w.sys, c) && Live(w.sys, e)
    ensures w.sys.cur[c].value < NENV && w.sys.qnum[e] < NQUEUES
    ensures var s, o := w.sys, ChangePrio(w.sys, c, w.sys.id[e], prio);
            && o.Returned? && OnlySlot(s, o.sys, e)
            && o.sys.status == s.status && o.sys.cur == s.cur && o.sys.free == s.free
            && if !(s.cur[c] == Some(e) || s.parent[e] == s.id[s.cur[c].value]) then o.r == E_BAD_ENV && o.sys == s
               else if s.qnum[e] <= prio < NQUEUES then o.r == E_OK && o.sys.qnum == s.qnum[e := prio] && (prio == s.qnum[e] ==> o.sys == s)
               else o.r == E_INVAL && o.sys == s
  {
    LiveIdsAreDistinct(w, e, e);
    LookupWithPermissionIsExact(w, c, w.sys.id[e], e);
    hide LifecycleOk, InPhase, Remove, NoDup;
    var found := Lookup(w.sys, c, w.sys.id[e], true);
    if found.Some? {
      LookupIsLive(w.sys, c, w.sys.id[e], true);
      LookupWithPermissionIsExact(w, c, w.sys.id[e], found.value);
      LiveIdsAreDistinct(w, e, found.value);
    }
  }

  /** Who asks for a message waits, and goes on when somebody sends one: any CPU may run it then, and the
      message is in its box. */
  lemma ReceiverWaits(s: Sys, c: nat, k: Clock)
    requires Running(s, c)
    ensures var o, me := Recv(s, c, true), s.cur[c].value;
            && me < NENV && OnlySlot(s, o.sys, me) && o.Yielded? && o.sys.recving[me] && InKernel(o.sys, c)
            && var t := Yield(o.sys, c, k); c < |t.cur| && me < |t.status| && t.status[me] == NOT_RUNNABLE && (!t.stopped ==> t.cur[c] != Some(me))
  {
    hide Yield, Recv, InKernel, SameIdentities, OnlySlot;
    RecvExactly(s, c, true);
    WaitsNow(s, c);
    var o, me := Recv(s, c, true), s.cur[c].value;
    YieldKeepsRunnish(o.sys, c, k, me);
    YieldKeepsIdentities(o.sys, c, k);
    SameIdentitiesLive(o.sys, Yield(o.sys, c, k), me);
  }

  lemma SameIdentitiesLive(s: Sys, t: Sys, e: nat)
    requires SameIdentities(s, t)
    ensures (Live(t, e) <==> Live(s, e)) && |t.cur| == |s.cur|
  {
  }

  lemma WaitsNow(s: Sys, c: nat)
    requires Running(s, c)
    ensures var o, me := Recv(s, c, true), s.cur[c].value;
            && me < NENV && c < |s.cur| && OnlySlot(s, o.sys, me) && o.Yielded? && o.sys.cur == s.cur && me < |o.sys.recving| && o.sys.recving[me]
            && Live(o.sys, me) && !Runnish(o.sys.status[me])
  {
  }

  lemma SendWakesReceiver(w: World, c: nat, b: nat, e: nat, value: int, pageError: int)
    requires WorldOk(w) && Running(w.sys, c) && b < |w.sys.cur| && Live(w.sys, e) && w.sys.recving[e] && pageError >= 0
    ensures w.sys.cur[c].value < NENV
    ensures var s, o := w.sys, TrySend(w.sys, c, w.sys.id[e], value, pageError);
            && o.Returned? && o.r == E_OK && OnlySlot(s, o.sys, e) && o.sys.cur == s.cur && o.sys.queues == s.queues && o.sys.free == s.free
            && !o.sys.recving[e] && o.sys.from[e] == s.id[s.cur[c].value] && o.sys.value[e] == value
            && s.status[e] == NOT_RUNNABLE && CanRun(o.sys, b, e)
  {
    LiveIdsAreDistinct(w, e, e);
    LookupIsExact(w, c, w.sys.id[e], e);
    hide InPhase;
  }

  /** Why a send is refused, in the order of the tests. */
  lemma SendRefusals(w: World, c: nat, e: nat, envid: int, value: int, pageError: int)
    requires WorldOk(w) && Running(w.sys, c) && envid != 0
    ensures var s, o := w.sys, TrySend(w.sys, c, envid, value, pageError);
            && o.Returned?
            && ((forall x: nat | Live(s, x) :: s.id[x] != envid) ==> o.r == E_BAD_ENV)
            && (Live(s, e) && s.id[e] == envid && !s.recving[e] ==> o.r == E_IPC_NOT_RECV)
            && (Live(s, e) && s.id[e] == envid && s.recving[e] && pageError < 0 ==> o.r == pageError)
            && (o.r != E_OK ==> o.sys == s)
  {
    LookupIsExact(w, c, envid, e);
    hide InPhase, LifecycleOk;
    var found := Lookup(w.sys, c, envid, false);
    if found.Some? {
      LookupIsExact(w, c, envid, found.value);
    }
  }

  /** What a status, an address or an id that is no good is answered. */
  lemma BadArguments(w: World, c: nat, envid: int, status: Status)
    requires WorldOk(w) && Running(w.sys, c)
    ensures status != RUNNABLE && status != NOT_RUNNABLE ==> SetStatus(w.sys, c, envid, status) == Returned(w.sys, E_INVAL)
    ensures Recv(w.sys, c, false).Returned? && Recv(w.sys, c, false).r == E_INVAL
    ensures envid != 0 && (forall x: nat | Live(w.sys, x) :: w.sys.id[x] != envid) ==>
              && Dispatch(w.sys, c, SysDestroy(envid)) == Returned(w.sys, E_BAD_ENV)
              && (forall prio :: Dispatch(w.sys, c, SysChangePrio(envid, prio)) == Returned(w.sys, E_BAD_ENV))
              && (status == RUNNABLE || status == NOT_RUNNABLE ==> Dispatch(w.sys, c, SysSetStatus(envid, status)) == Returned(w.sys, E_BAD_ENV))
  {
    hide InPhase;
    LookupIsLive(w.sys, c, envid, true);
  }

  /** Without a reason to schedule, the environment goes on where it was. */
  lemma CallReturns(w: World, c: nat, call: Call, k: Clock)
    requires Calling(w, c, call) && k.resume && Dispatch(w.sys, c, call).Returned?
    requires var t := Dispatch(w.sys, c, call).sys; c < |t.cur| && t.cur[c].Some? && t.cur[c].value < |t.status| && t.status[t.cur[c].value] == RUNNING
    ensures Trap(w.sys, c, call, k) == Dispatch(w.sys, c, call).sys
  {
    CallingIsRunning(w, c, call, k);
    hide Dispatch, Trap;
    SwitchBack(Dispatch(w.sys, c, call).sys, c);
  }

  // ---------------------------------------------------------------- whole kernel entries

  lemma FinishKeepsRunnish(o: Outcome, c: nat, k: Clock, e: nat)
    requires InKernel(o.sys, c) && Live(o.sys, e)
    ensures var t := Finish(o, c, k); Live(t, e) && (Runnish(t.status[e]) <==> Runnish(o.sys.status[e]))
  {
    hide Yield, NoDup, IsCurrent, CpusDiffer, SwitchTo;
    YieldKeepsRunnish(o.sys, c, k, e);
    YieldKeepsIdentities(o.sys, c, k);
    if o.sys.cur[c].Some? && o.sys.status[o.sys.cur[c].value] == RUNNING {
      SwitchBack(o.sys, c);
    }
  }

  /** CPU `c` is running an environment that has not been destroyed meanwhile, and traps with `call`. */
  ghost predicate Calling(w: World, c: nat, call: Call) {
    WorldOk(w) && CanTrap(w.sys, c, call) && w.sys.cur[c].Some? && w.sys.cur[c].value < NENV && w.sys.status[w.sys.cur[c].value] == RUNNING
  }

  lemma CallingIsRunning(w: World, c: nat, call: Call, k: Clock)
    requires Calling(w, c, call)
    ensures c < |w.sys.cur| && Running(w.sys, c) && Guard(w.sys, c, call) && InKernel(Dispatch(w.sys, c, call).sys, c)
    ensures Trap(w.sys, c, call, k) == Finish(Dispatch(w.sys, c, call), c, k)
  {
    DispatchKeepsInvariantExactly(w.sys, c, call);
  }

  /** A message sent through the kernel starts its receiver. */
  lemma SendEntryWakes(w: World, c: nat, k: Clock, e: nat, value: int, pageError: int)
    requires Sized(w.sys) && Live(w.sys, e) && Calling(w, c, SysTrySend(w.sys.id[e], value, pageError)) && w.sys.recving[e] && pageError >= 0
    ensures var t := Trap(w.sys, c, SysTrySend(w.sys.id[e], value, pageError), k); Live(t, e) && Runnish(t.status[e])
  {
    hide WorldOk, CanTrap, InKernel, Running, TrySend, Finish, Trap;
    var call := SysTrySend(w.sys.id[e], value, pageError);
    CallingIsRunning(w, c, call, k);
    SendWakesReceiver(w, c, c, e, value, pageError);
    FinishKeepsRunnish(Dispatch(w.sys, c, call), c, k, e);
  }

  /** Who asks for one stops, until then. */
  lemma ReceiveEntryWaits(w: World, c: nat, k: Clock)
    requires Calling(w, c, SysRecv(true))
    ensures var t, me := Trap(w.sys, c, SysRecv(true), k), w.sys.cur[c].value; Live(t, me) && !Runnish(t.status[me])
  {
    hide WorldOk, CanTrap, InKernel, Running, Recv, Finish, Trap;
    CallingIsRunning(w, c, SysRecv(true), k);
    WaitsNow(w.sys, c);
    FinishKeepsRunnish(Dispatch(w.sys, c, SysRecv(true)), c, k, w.sys.cur[c].value);
  }

  /** A parent starts and stops its child, as long as the guard holds. */
  lemma StatusEntryTakesEffect(w: World, c: nat, k: Clock, e: nat, status: Status)
    requires Sized(w.sys) && Live(w.sys, e) && Calling(w, c, SysSetStatus(w.sys.id[e], status)) && (status == RUNNABLE || status == NOT_RUNNABLE)
    requires w.sys.cur[c] == Some(e) || w.sys.parent[e] == w.sys.id[w.sys.cur[c].value]
    ensures var t := Trap(w.sys, c, SysSetStatus(w.sys.id[e], status), k); Live(t, e) && (Runnish(t.status[e]) <==> status == RUNNABLE)
  {
    hide WorldOk, CanTrap, InKernel, Running, SetStatus, Finish, Trap;
    var call := SysSetStatus(w.sys.id[e], status);
    CallingIsRunning(w, c, call, k);
    SetStatusReachesExactly(w, c, e, status);
    FinishKeepsRunnish(Dispatch(w.sys, c, call), c, k, e);
  }

  /** A child is there afterwards, and waits to be started. */
  lemma ExoforkEntryMakesChild(w: World, c: nat, k: Clock)
    requires Calling(w, c, SysExofork(true)) && w.sys.free != []
    ensures var t, e := Trap(w.sys, c, SysExofork(true), k), w.sys.free[0]; !Live(w.sys, e) && Live(t, e) && !Runnish(t.status[e])
  {
    hide WorldOk, CanTrap, InKernel, Running, Exofork, Finish, Trap;
    CallingIsRunning(w, c, SysExofork(true), k);
    ExoforkReturnsChild(w.sys, c, true);
    FinishKeepsRunnish(Dispatch(w.sys, c, SysExofork(true)), c, k, w.sys.free[0]);
  }

  /** sys_env_destroy ends the caller or a child of its own, at once or at its next kernel entry. */
  lemma DestroyEntryEnds(w: World, c: nat, k: Clock, e: nat)
    requires Sized(w.sys) && Live(w.sys, e) && Calling(w, c, SysDestroy(w.sys.id[e]))
    requires w.sys.cur[c] == Some(e) || w.sys.parent[e] == w.sys.id[w.sys.cur[c].value]
    ensures var t := Trap(w.sys, c, SysDestroy(w.sys.id[e]), k); Live(t, e) ==> t.status[e] == DYING
  {
    hide WorldOk, CanTrap, Running, Destroy, Trap, Finish, Lookup, InKernel;
    var call := SysDestroy(w.sys.id[e]);
    CallingIsRunning(w, c, call, k);
    LiveIdsAreDistinct(w, e, e);
    LookupWithPermissionIsExact(w, c, w.sys.id[e], e);
    DestroyFreesOrMarks(w.sys, c, e);
    var o := Dispatch(w.sys, c, call);
    FinishKeepsIdentities(o, c, k);
    if Live(o.sys, e) {
      FinishKeepsDying(o, c, k, e);
    }
  }

  lemma FinishKeepsDying(o: Outcome, c: nat, k: Clock, e: nat)
    requires InKernel(o.sys, c) && Live(o.sys, e) && o.sys.status[e] == DYING
    ensures var t := Finish(o, c, k); Live(t, e) && t.status[e] == DYING
  {
    hide Yield, NoDup, IsCurrent, CpusDiffer, SwitchTo;
    YieldKeepsRunnish(o.sys, c, k, e);
    if o.sys.cur[c].Some? && o.sys.status[o.sys.cur[c].value] == RUNNING {
      SwitchBack(o.sys, c);
    }
  }

  // ---------------------------------------------------------------- the histories

  /** The kernel entry sends `msg` to slot `e`. */
  ghost predicate Sends(w: World, c: nat, call: Call, e: nat, msg: Msg) {
    && call.SysTrySend? && Calling(w, c, call) && msg == Msg(w.sys.id[w.sys.cur[c].value], call.value)
    && var o := TrySend(w.sys, c, call.envid, call.value, call.pageError);
       o.Returned? && o.r == E_OK && Lookup(w.sys, c, call.envid, false) == Some(e)
  }

  lemma EventIsSend(w: World, c: nat, call: Call, e: nat)
    requires WorldOk(w) && CanTrap(w.sys, c, call)
    ensures forall msg :: Sends(w, c, call, e, msg) <==> EnterEvent(w.sys, c, call) == Sent(e, msg)
  {
    if w.sys.cur[c].Some? {
      assert Busy(w.sys, w.sys.cur[c].value);
    }
  }

  /** The histories record what the kernel did: the table is what the entry made of it, a message is
      added where a send succeeded and nowhere else, and who is new starts with none. */
  lemma HistoryIsTrue(w: World, c: nat, call: Call, k: Clock, e: nat)
    requires Enabled(w, Enter(c, call, k)) && e < NENV
    ensures var n := Next(w, Enter(c, call, k));
            && n.sys == Trap(w.sys, c, call, k) && e < |n.sentTo| == |n.gotBy| && e < |w.sentTo| == |w.gotBy|
            && (!Live(w.sys, e) && Live(n.sys, e) ==> n.sentTo[e] == n.gotBy[e] == [])
            && (Live(w.sys, e) ==> n.gotBy[e] == w.gotBy[e])
            && (Live(w.sys, e) ==> (forall msg | Sends(w, c, call, e, msg) :: n.sentTo[e] == w.sentTo[e] + [msg]))
            && (Live(w.sys, e) && (forall msg :: !Sends(w, c, call, e, msg)) ==> n.sentTo[e] == w.sentTo[e])
  {
    hide Trap, EnterEvent, Sends, LifecycleOk, InPhase, CanTrap;
    EnterFollows(w.sys, c, call, k);
    EventIsSend(w, c, call, e);
  }
}
