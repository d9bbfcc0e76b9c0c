/** The environment table with its linked lists, after kern/env.c, kern/sched.c, kern/trap.c and
    kern/syscall.c: `envs[]`, `env_free_list` and the heads and tails of `queues[]`.

    Pointers between environments are slot numbers.  `Snap()` is the table's meaning, and every
    method is proved to change it as the function of the same operation in Mlfq or Lifecycle
    says; `env_run`, which does not return, is the choice it was called with. */
module EnvTable {
  import opened Common
  import opened Mlfq
  import opened Lifecycle
  import Calls

  function Successor(q: seq<nat>, k: nat): Option<nat> {
    if k + 1 < |q| then Some(q[k + 1]) else None
  }

  function First(q: seq<nat>): Option<nat> {
    if |q| == 0 then None else Some(q[0])
  }

  function Last(q: seq<nat>): Option<nat> {
    if |q| == 0 then None else Some(q[|q| - 1])
  }

  /** Following `next` from the first member visits `q` and stops. */
  ghost predicate Threaded(q: seq<nat>, next: seq<Option<nat>>) {
    && (forall k: nat | k < |q| :: q[k] < |next|)
    && (forall k: nat {:trigger next[q[k]]} | k < |q| :: next[q[k]] == Successor(q, k))
  }

  lemma ThreadElsewhere(q: seq<nat>, next: seq<Option<nat>>, e: nat, p: Option<nat>)
    requires Threaded(q, next) && e < |next| && e !in q
    ensures Threaded(q, next[e := p])
  {
  }

  lemma ThreadAppend(q: seq<nat>, next: seq<Option<nat>>, e: nat)
    requires Threaded(q, next) && NoDup(q) && e < |next| && e !in q
    ensures var n := if |q| == 0 then next else next[q[|q| - 1] := Some(e)];
            Threaded(q + [e], n[e := None])
  {
    var r, n := q + [e], (if |q| == 0 then next else next[q[|q| - 1] := Some(e)])[e := None];
    forall k: nat | k < |r|
      ensures n[r[k]] == Successor(r, k)
    {
      if k < |q| {
        assert r[k] == q[k] && next[q[k]] == Successor(q, k);
      }
    }
  }

  /** Unlinking the member at `k`. */
  lemma ThreadUnlink(q: seq<nat>, next: seq<Option<nat>>, k: nat)
    requires Threaded(q, next) && NoDup(q) && k < |q|
    ensures var n := if k == 0 then next else next[q[k - 1] := next[q[k]]];
            Threaded(q[..k] + q[k + 1..], n[q[k] := None])
  {
    var r := q[..k] + q[k + 1..];
    var n := (if k == 0 then next else next[q[k - 1] := next[q[k]]])[q[k] := None];
    forall j: nat | j < |r|
      ensures n[r[j]] == Successor(r, j)
    {
      var i := if j < k then j else j + 1;
      assert r[j] == q[i] && next[q[i]] == Successor(q, i) && next[q[k]] == Successor(q, k);
    }
  }

  lemma FirstEligibleAt(s: Sys, order: seq<nat>, last: Option<nat>, n: nat)
    requires n < |order| && Eligible(s, order[n], last) && forall j: nat | j < n :: !Eligible(s, order[j], last)
    ensures FirstEligible(s, order, last) == Some(order[n])
  {
    if n > 0 {
      assert !Eligible(s, order[0], last);
      forall j: nat | j < n - 1
        ensures !Eligible(s, order[1..][j], last)
      {
        assert order[1..][j] == order[j + 1];
      }
      FirstEligibleAt(s, order[1..], last, n - 1);
    }
  }

  lemma NoneEligible(s: Sys, order: seq<nat>, last: Option<nat>)
    requires forall j: nat | j < |order| :: !Eligible(s, order[j], last)
    ensures FirstEligible(s, order, last) == None
  {
  }

  /** The heads, tails, counters and next_env links of all queues, as values. */
  datatype Lists = Lists(next: seq<Option<nat>>, first: seq<Option<nat>>, last: seq<Option<nat>>, count: seq<int>)

  ghost predicate QueueOk(l: Lists, i: nat, q: seq<nat>)
    requires |l.first| == |l.last| == |l.count| == NQUEUES && i < NQUEUES
  {
    l.first[i] == First(q) && l.last[i] == Last(q) && l.count[i] == |q| && Threaded(q, l.next) && NoDup(q)
  }

  ghost predicate Threads(l: Lists, queues: seq<seq<nat>>) {
    && |l.first| == |l.last| == |l.count| == |queues| == NQUEUES && |l.next| == NENV
    && (forall i: nat | i < NQUEUES :: QueueOk(l, i, queues[i]))
    && (forall i: nat, j: nat, e: nat | i < NQUEUES && j < NQUEUES && e in queues[i] && e in queues[j] :: i == j)
  }

  function Pushed(l: Lists, i: nat, e: nat): Lists
    requires |l.first| == |l.last| == |l.count| == NQUEUES && |l.next| == NENV && i < NQUEUES && e < NENV
    requires l.first[i].Some? ==> l.last[i].Some? && l.last[i].value < NENV
  {
    Lists((if l.first[i].None? then l.next else l.next[l.last[i].value := Some(e)])[e := None],
          if l.first[i].None? then l.first[i := Some(e)] else l.first,
          l.last[i := Some(e)],
          l.count[i := l.count[i] + 1])
  }

  lemma PushThreads(l: Lists, queues: seq<seq<nat>>, i: nat, e: nat)
    requires Threads(l, queues) && i < NQUEUES && e < NENV && forall j: nat | j < NQUEUES :: e !in queues[j]
    ensures l.first[i].Some? <==> queues[i] != []
    ensures l.first[i].Some? ==> l.last[i].Some? && l.last[i].value < NENV
    ensures Threads(Pushed(l, i, e), queues[i := queues[i] + [e]])
  {
    var q := queues[i];
    assert QueueOk(l, i, q);
    var m := Pushed(l, i, e);
    ThreadAppend(q, l.next, e);
    AppendNoDup(q, e);
    assert QueueOk(m, i, q + [e]);
    forall j: nat | j < NQUEUES && j != i
      ensures QueueOk(m, j, queues[j])
    {
      assert QueueOk(l, j, queues[j]);
      if |q| == 0 {
        ThreadElsewhere(queues[j], l.next, e, None);
      } else {
        assert q[|q| - 1] in q;
        ThreadElsewhere(queues[j], l.next, q[|q| - 1], Some(e));
        ThreadElsewhere(queues[j], l.next[q[|q| - 1] := Some(e)], e, None);
      }
    }
  }

  function Unlinked(l: Lists, i: nat, e: nat, prev: Option<nat>): Lists
    requires |l.first| == |l.last| == |l.count| == NQUEUES && |l.next| == NENV && i < NQUEUES && e < NENV
    requires prev.Some? ==> prev.value < NENV
  {
    Lists((if prev.Some? then l.next[prev.value := l.next[e]] else l.next)[e := None],
          if l.first[i] == Some(e) then l.first[i := l.next[e]] else l.first,
          if l.last[i] == Some(e) then l.last[i := prev] else l.last,
          l.count[i := l.count[i] - 1])
  }

  lemma UnlinkOwn(l: Lists, queues: seq<seq<nat>>, i: nat, k: nat)
    requires Threads(l, queues) && i < NQUEUES && k < |queues[i]|
    ensures queues[i][k] < NENV && (k > 0 ==> queues[i][k - 1] < NENV)
    ensures var e, prev := queues[i][k], if k == 0 then None else Some(queues[i][k - 1]);
            QueueOk(Unlinked(l, i, e, prev), i, queues[i][..k] + queues[i][k + 1..])
  {
    var q := queues[i];
    assert QueueOk(l, i, q);
    assert l.next[q[k]] == Successor(q, k);
    ThreadUnlink(q, l.next, k);
  }

  lemma RemoveAt(q: seq<nat>, k: nat)
    requires NoDup(q) && k < |q|
    ensures Remove(q, q[k]) == q[..k] + q[k + 1..]
  {
    assert q[k] in q;
  }

  lemma UnlinkThreads(l: Lists, queues: seq<seq<nat>>, i: nat, k: nat)
    requires Threads(l, queues) && i < NQUEUES && k < |queues[i]|
    ensures queues[i][k] < NENV && (k > 0 ==> queues[i][k - 1] < NENV)
    ensures var e, prev := queues[i][k], if k == 0 then None else Some(queues[i][k - 1]);
            Threads(Unlinked(l, i, e, prev), queues[i := Remove(queues[i], e)])
  {
    UnlinkOwn(l, queues, i, k);
    UnlinkLeavesOthers(l, queues, i, k);
    assert QueueOk(l, i, queues[i]);
    RemoveAt(queues[i], k);
    RemoveMembers(queues[i], queues[i][k]);
    hide QueueOk, Threaded, NoDup, Remove;
    var after := queues[i := Remove(queues[i], queues[i][k])];
    assert forall a: nat, x: nat | a < NQUEUES && x in after[a] :: x in queues[a];
  }

  lemma UnlinkLeavesOthers(l: Lists, queues: seq<seq<nat>>, i: nat, k: nat)
    requires Threads(l, queues) && i < NQUEUES && k < |queues[i]|
    ensures queues[i][k] < NENV && (k > 0 ==> queues[i][k - 1] < NENV)
    ensures var e, prev := queues[i][k], if k == 0 then None else Some(queues[i][k - 1]);
            forall j: nat | j < NQUEUES && j != i :: QueueOk(Unlinked(l, i, e, prev), j, queues[j])
  {
    var q := queues[i];
    assert QueueOk(l, i, q);
    var e, prev: Option<nat> := q[k], if k == 0 then None else Some(q[k - 1]);
    var m := Unlinked(l, i, e, prev);
    assert e in q;
    forall j: nat | j < NQUEUES && j != i
      ensures QueueOk(m, j, queues[j])
    {
      assert QueueOk(l, j, queues[j]);
      assert e !in queues[j];
      if k > 0 {
        assert q[k - 1] in q;
        ThreadElsewhere(queues[j], l.next, q[k - 1], l.next[e]);
        ThreadElsewhere(queues[j], l.next[q[k - 1] := l.next[e]], e, None);
      } else {
        ThreadElsewhere(queues[j], l.next, e, None);
      }
    }
  }

  lemma OneQueue(q: seq<nat>)
    ensures Flatten([q]) == q
  {
    assert [q][..0] == [];
  }

  lemma FirstIsRemoved(q: seq<nat>)
    requires |q| > 0
    ensures Remove(q, q[0]) == q[1..]
  {
  }

  lemma OutsiderLink(l: Lists, queues: seq<seq<nat>>, e: nat)
    requires Threads(l, queues) && e < NENV && forall j: nat | j < NQUEUES :: e !in queues[j]
    ensures Threads(l.(next := l.next[e := None]), queues)
  {
    forall j: nat | j < NQUEUES
      ensures QueueOk(l.(next := l.next[e := None]), j, queues[j])
    {
      assert QueueOk(l, j, queues[j]);
      ThreadElsewhere(queues[j], l.next, e, None);
    }
  }

  lemma ThreadPush(q: seq<nat>, link: seq<Option<nat>>, e: nat)
    requires Threaded(q, link) && e < |link| && e !in q
    ensures Threaded([e] + q, link[e := First(q)])
  {
    var r, n := [e] + q, link[e := First(q)];
    forall k: nat | k < |r|
      ensures n[r[k]] == Successor(r, k)
    {
      if k > 0 {
        assert r[k] == q[k - 1] && link[q[k - 1]] == Successor(q, k - 1);
      }
    }
  }

  lemma ThreadPop(q: seq<nat>, link: seq<Option<nat>>)
    requires Threaded(q, link) && |q| > 0
    ensures q[0] < |link| && link[q[0]] == First(q[1..]) && Threaded(q[1..], link)
  {
    assert link[q[0]] == Successor(q, 0);
    forall k: nat | k < |q[1..]|
      ensures link[q[1..][k]] == Successor(q[1..], k)
    {
      assert link[q[k + 1]] == Successor(q, k + 1);
    }
  }

  /** Where boost stands: queues below `i` are emptied into queue 0, and `m` of queue `i`. */
  ghost predicate Boosting(was: seq<seq<nat>>, now: seq<seq<nat>>, i: nat, m: nat) {
    && |was| == |now| == NQUEUES && 0 < i < NQUEUES && m <= |was[i]|
    && now[0] == Flatten(was[..i]) + was[i][..m] && now[i] == was[i][m..]
    && (forall j: nat | 0 < j < i :: now[j] == [])
    && (forall j: nat | i < j < NQUEUES :: now[j] == was[j])
  }

  lemma BoostStep(was: seq<seq<nat>>, now: seq<seq<nat>>, i: nat, m: nat)
    requires Boosting(was, now, i, m) && m < |was[i]|
    ensures Boosting(was, now[i := now[i][1..]][0 := now[0] + [now[i][0]]], i, m + 1)
  {
    assert was[i][..m + 1] == was[i][..m] + [was[i][m]];
  }

  lemma BoostNext(was: seq<seq<nat>>, now: seq<seq<nat>>, i: nat)
    requires i < |was| && Boosting(was, now, i, |was[i]|)
    ensures now[0] == Flatten(was[..i + 1]) && now[i] == []
    ensures i + 1 < NQUEUES ==> Boosting(was, now, i + 1, 0)
  {
    assert was[..i + 1][..i] == was[..i];
  }

  lemma AllInQueueZero(s: Sys, t: Sys)
    requires Placed(s) && Placed(t) && t == s.(qnum := t.qnum, queues := t.queues)
    requires t.queues[0] == Flatten(s.queues) && forall j: nat | 0 < j < NQUEUES :: t.queues[j] == []
    requires forall e: nat | e < NENV && s.status[e] == FREE :: t.qnum[e] == s.qnum[e]
    ensures t == Boosted(s)
  {
    forall e: nat | e < NENV
      ensures t.qnum[e] == BoostedNumbers(s)[e]
    {
      if t.status[e] != FREE {
        assert Member(t, t.qnum[e], e);
        assert e in t.queues[t.qnum[e]];
      }
    }
    assert t.qnum == BoostedNumbers(s);
  }

  lemma AllocFields(s: Sys, parentId: int)
    requires Sized(s) && s.free != [] && s.free[0] < NENV
    ensures var e, t := s.free[0], Alloc(s, parentId);
            && t.queues == s.queues[0 := s.queues[0] + [e]]
            && t == Sys(s.status[e := RUNNABLE], s.id[e := NextId(s.id[e], e)], s.parent[e := parentId], s.qnum[e := 0],
                        s.recving[e := false], s.from, s.value, t.queues, s.free[1..], s.cur, s.stopped)
  {
  }

  /** A sequence cut behind place `k` and put together the other way round. */
  lemma TurnedRound(q: seq<nat>, k: nat)
    requires k < |q|
    ensures var order := q[k + 1..] + q[..k + 1];
            && |order| == |q|
            && (forall p: nat | k + 1 <= p < |q| :: order[p - (k + 1)] == q[p])
            && (forall p: nat | p < k + 1 :: order[|q| - (k + 1) + p] == q[p])
  {
  }

  lemma OthersBehind(q: seq<nat>, k: nat)
    requires NoDup(q) && k < |q|
    ensures forall p: nat | k + 1 <= p < |q| :: q[p] != q[k]
  {
  }

  lemma CircleIs(q: seq<nat>, last: Option<nat>)
    ensures last.None? ==> Circle(q, last) == q
    ensures last.Some? && last.value in q ==>
              var k := IndexOf(q, last.value); k < |q| && q[k] == last.value && Circle(q, last) == q[k + 1..] + q[..k + 1]
  {
  }

  lemma CircleFrom(q: seq<nat>, last: Option<nat>)
    requires NoDup(q) && (last.Some? ==> last.value in q)
    ensures var start := if last.None? then 0 else IndexOf(q, last.value) + 1;
            && start <= |q| == |Circle(q, last)|
            && (last.Some? ==> start > 0 && q[start - 1] == last.value)
            && (forall p: nat | start <= p < |q| :: Circle(q, last)[p - start] == q[p] && last != Some(q[p]))
            && (forall p: nat | p < start :: Circle(q, last)[|q| - start + p] == q[p])
  {
    hide Circle, IndexOf, NoDup;
    CircleIs(q, last);
    if last.Some? {
      var k := IndexOf(q, last.value);
      TurnedRound(q, k);
      OthersBehind(q, k);
    }
  }

  lemma PreparedIsPlaced(s: Sys, c: nat, k: Clock)
    requires InKernel(s, c)
    ensures Placed(Prepared(s, c, k)) && c < |Prepared(s, c, k).cur|
  {
    PreparedKeepsKernel(s, c, k);
  }

  lemma RunningFacts(s: Sys, c: nat)
    requires Running(s, c)
    ensures Placed(s) && Sized(s) && c < |s.cur| && s.cur[c].Some? && s.cur[c].value < NENV && Live(s, s.cur[c].value)
    ensures s.qnum[s.cur[c].value] < NQUEUES
  {
  }

  lemma AllocFacts(s: Sys, parentId: int)
    requires Placed(s) && s.free != []
    ensures s.free[0] < NENV && Live(Alloc(s, parentId), s.free[0]) && Sized(Alloc(s, parentId))
    ensures Alloc(s, parentId).cur == s.cur && Alloc(s, parentId).qnum[s.free[0]] < NQUEUES
  {
    assert s.free[0] in s.free;
  }

  /** Message boxes have no part in where a slot is kept. */
  lemma BoxesKeepPlaced(s: Sys, t: Sys)
    requires Placed(s) && Sized(t) && t == s.(from := t.from, recving := t.recving, value := t.value)
    ensures Placed(t)
  {
    assert forall i: nat, x: nat | i < NQUEUES :: Member(t, i, x) <==> Member(s, i, x);
  }

  lemma OutsideIsKernel(s: Sys, c: nat, call: Call)
    requires CanTrap(s, c, call) && s.cur[c].None?
    ensures InKernel(s, c)
  {
  }

  lemma CurrentIsLive(s: Sys, c: nat, call: Call)
    requires CanTrap(s, c, call) && s.cur[c].Some?
    ensures Placed(s) && s.cur[c].value < NENV && Live(s, s.cur[c].value)
    ensures s.status[s.cur[c].value] != DYING ==> Running(s, c) && Guard(s, c, call)
  {
    assert Busy(s, s.cur[c].value);
  }

  lemma KernelFacts(s: Sys, c: nat)
    requires InKernel(s, c)
    ensures Placed(s) && Sized(s) && c < |s.cur| && (s.cur[c].Some? ==> s.cur[c].value < NENV)
  {
  }

  lemma CurrentCanRun(s: Sys, c: nat)
    requires InKernel(s, c) && s.cur[c].Some? && s.cur[c].value < NENV && s.status[s.cur[c].value] == RUNNING
    ensures CanRun(s, c, s.cur[c].value)
  {
  }

  class Table {
    var status: seq<Status>
    var id: seq<int>
    var parent: seq<int>
    var qnum: seq<nat>
    var recving: seq<bool>
    var from: seq<int>
    var value: seq<int>
    var next: seq<Option<nat>>      // next_env
    var link: seq<Option<nat>>      // env_link
    var first: seq<Option<nat>>     // queues[i].envs
    var last: seq<Option<nat>>      // queues[i].last_env
    var count: seq<int>             // queues[i].num_envs
    var freeFirst: Option<nat>      // env_free_list
    var cur: seq<Option<nat>>
    var stopped: bool
    ghost var queues: seq<seq<nat>>
    ghost var free: seq<nat>

    ghost function Snap(): Sys
      reads this
    {
      Sys(status, id, parent, qnum, recving, from, value, queues, free, cur, stopped)
    }

    ghost function Links(): Lists
      reads this
    {
      Lists(next, first, last, count)
    }

    ghost predicate Valid()
      reads this
    {
      Threads(Links(), queues) && |link| == NENV && freeFirst == First(free) && Threaded(free, link) && Placed(Snap())
    }

    /** env_init, over zeroed memory. */
    constructor (ncpu: nat)
      ensures Valid() && |cur| == ncpu && cur == seq(ncpu, _ => None) && !stopped
      ensures |free| == NENV && (forall e: nat | e < NENV :: free[e] == e && id[e] == 0)
      ensures forall e: nat | e < NENV :: status[e] == FREE && !recving[e]
      ensures forall i: nat | i < NQUEUES :: queues[i] == []
    {
      status := seq(NENV, _ => FREE);
      id := seq(NENV, _ => 0);
      parent := seq(NENV, _ => 0);
      qnum := seq(NENV, _ => 0);
      recving := seq(NENV, _ => false);
      from := seq(NENV, _ => 0);
      value := seq(NENV, _ => 0);
      next := seq(NENV, _ => None);
      link := seq(NENV, _ => None);
      first := seq(NQUEUES, _ => None);
      last := seq(NQUEUES, _ => None);
      count := seq(NQUEUES, _ => 0);
      queues := seq(NQUEUES, _ => []);
      cur := seq(ncpu, _ => None);
      stopped := false;
      freeFirst := Some(0);
      free := seq(NENV, (e: int) => if e >= 0 then e else 0);
      new;
      for i := 0 to NENV
        invariant |id| == |status| == |link| == NENV
        invariant forall e: nat | e < NENV :: id[e] == 0 && status[e] == FREE
        invariant forall e: nat | e < i :: link[e] == Some(e + 1)
        modifies `id, `status, `link
      {
        id := id[i := 0];
        status := status[i := FREE];
        link := link[i := Some(i + 1)];
      }
      link := link[NENV - 1 := None];
      assert forall k: nat | k < |free| :: free[k] == k;
      forall e: nat
        ensures e in free <==> e < NENV && status[e] == FREE
      {
        assert e < NENV ==> free[e] == e;
      }
    }

    // -------------------------------------------------------------- queues

    method QueuePush(i: nat, e: nat)
      requires Threads(Links(), queues) && i < NQUEUES && e < NENV
      requires forall j: nat | j < NQUEUES :: e !in queues[j]
      modifies `next, `first, `last, `count, `queues
      ensures Threads(Links(), queues)
      ensures Snap() == old(Snap()).(queues := old(queues)[i := old(queues[i]) + [e]])
    {
      PushThreads(Links(), queues, i, e);
      ghost var after := Pushed(Links(), i, e);
      hide QueueOk;
      if first[i] == None {
        first := first[i := Some(e)];
      } else {
        next := next[last[i].value := Some(e)];
      }
      last := last[i := Some(e)];
      next := next[e := None];
      count := count[i := count[i] + 1];
      queues := queues[i := queues[i] + [e]];
      assert Links() == after;
    }

    method QueueRemove(i: nat, e: nat)
      requires Threads(Links(), queues) && i < NQUEUES
      modifies `next, `first, `last, `count, `queues
      ensures Threads(Links(), queues)
      ensures Snap() == old(Snap()).(queues := old(queues)[i := Remove(old(queues[i]), e)])
    {
      ghost var q := queues[i];
      assert QueueOk(Links(), i, q);
      var prev: Option<nat> := None;
      var curr := first[i];
      ghost var k := 0;
      while curr.Some?
        invariant k <= |q| && curr == (if k < |q| then Some(q[k]) else None)
        invariant prev == (if k == 0 then None else Some(q[k - 1]))
        invariant forall j: nat | j < k :: q[j] != e
        decreases |q| - k
      {
        if curr.value == e {
          Unlink(i, e, prev, k);
          assert IndexOf(q, e) == k;
          return;
        }
        prev := curr;
        assert next[q[k]] == Successor(q, k);
        curr := next[curr.value];
        k := k + 1;
      }
      assert e !in q;
    }

    /** The lines of queue_remove for the environment found at place `k`. */
    method Unlink(i: nat, e: nat, prev: Option<nat>, ghost k: nat)
      requires Threads(Links(), queues) && i < NQUEUES && k < |queues[i]| && queues[i][k] == e
      requires prev == (if k == 0 then None else Some(queues[i][k - 1]))
      modifies `next, `first, `last, `count, `queues
      ensures Threads(Links(), queues)
      ensures Snap() == old(Snap()).(queues := old(queues)[i := Remove(old(queues[i]), e)])
    {
      UnlinkThreads(Links(), queues, i, k);
      ghost var after := Unlinked(Links(), i, e, prev);
      hide QueueOk, Remove;
      if first[i] == Some(e) {
        first := first[i := next[e]];
      }
      if last[i] == Some(e) {
        last := last[i := prev];
      }
      if prev.Some? {
        next := next[prev.value := next[e]];
      }
      count := count[i := count[i] - 1];
      next := next[e := None];
      queues := queues[i := Remove(queues[i], e)];
      assert Links() == after;
    }

    /** env_change_priority. */
    method ChangePriority(e: nat, prio: nat)
      requires Valid() && Live(Snap(), e)
      modifies `next, `first, `last, `count, `queues, `qnum
      ensures Valid() && Snap() == Reprioritize(old(Snap()), e, prio)
    {
      hide Threads, Threaded, Remove;
      if prio >= NQUEUES {
        return;
      }
      ReprioritizeKeepsPlaced(Snap(), e, prio);
      RemoveMembers(queues[qnum[e]], e);
      QueueRemove(qnum[e], e);
      qnum := qnum[e := prio];
      QueuePush(prio, e);
    }

    method Boost()
      requires Valid()
      modifies `next, `first, `last, `count, `queues, `qnum
      ensures Valid() && Snap() == Boosted(old(Snap()))
    {
      hide Threads, Threaded, NoDup, Flatten;
      ghost var s := Snap();
      assert queues[..1] == [queues[0]] && queues[1][..0] == [] && Flatten([queues[0]]) == queues[0] by {
        OneQueue(queues[0]);
      }
      for i := 1 to NQUEUES
        invariant Valid() && Snap() == s.(qnum := qnum, queues := queues)
        invariant forall e: nat | e < NENV && s.status[e] == FREE :: qnum[e] == s.qnum[e]
        invariant if i < NQUEUES then Boosting(s.queues, queues, i, 0)
                  else queues[0] == Flatten(s.queues) && forall j: nat | 0 < j < NQUEUES :: queues[j] == []
      {
        ghost var m := 0;
        while HeadOf(i).Some?
          invariant Valid() && Snap() == s.(qnum := qnum, queues := queues)
          invariant forall e: nat | e < NENV && s.status[e] == FREE :: qnum[e] == s.qnum[e]
          invariant Boosting(s.queues, queues, i, m)
          decreases |s.queues[i]| - m
        {
          var e := HeadOf(i).value;
          assert e in queues[i] && Member(Snap(), i, e);
          BoostStep(s.queues, queues, i, m);
          FirstIsRemoved(queues[i]);
          ChangePriority(e, 0);
          m := m + 1;
        }
        BoostNext(s.queues, queues, i);
        assert s.queues[..NQUEUES] == s.queues;
      }
      AllInQueueZero(s, Snap());
    }

    function HeadOf(i: nat): (r: Option<nat>)
      requires Valid() && i < NQUEUES
      reads this
      ensures r == First(queues[i])
    {
      assert QueueOk(Links(), i, queues[i]);
      first[i]
    }

    // -------------------------------------------------------------- slots

    /** env_alloc; `memory` says whether a page directory could be had. */
    method EnvAlloc(parentId: int, memory: bool) returns (r: int, e: nat)
      requires Valid()
      modifies `status, `id, `parent, `qnum, `recving, `next, `first, `last, `count, `freeFirst, `queues, `free
      ensures Valid()
      ensures r == if old(free) == [] then E_NO_FREE_ENV else if !memory then E_NO_MEM else E_OK
      ensures r != E_OK ==> unchanged(this)
      ensures r == E_OK ==> e == old(free)[0] < NENV && Snap() == Alloc(old(Snap()), parentId)
    {
      hide Threads, Threaded, Placed, Alloc;
      if freeFirst == None {
        return E_NO_FREE_ENV, 0;
      }
      if !memory {
        return E_NO_MEM, 0;
      }
      r, e := E_OK, freeFirst.value;
      Occupy(parentId);
    }

    lemma FirstFreeSlot()
      requires Valid() && free != []
      ensures freeFirst == Some(free[0]) && free[0] < NENV
      ensures forall j: nat | j < NQUEUES :: free[0] !in queues[j]
      ensures Threads(Links().(next := next[free[0] := None]), queues)
      ensures link[free[0]] == First(free[1..]) && Threaded(free[1..], link)
    {
      ThreadPop(free, link);
      assert free[0] in free && forall j: nat | j < NQUEUES :: !Member(Snap(), j, free[0]);
      OutsiderLink(Links(), queues, free[0]);
    }

    /** The part of env_alloc that cannot fail. */
    method Occupy(parentId: int)
      requires Valid() && freeFirst.Some?
      modifies `status, `id, `parent, `qnum, `recving, `next, `first, `last, `count, `freeFirst, `queues, `free
      ensures Valid() && old(free)[0] < NENV && Snap() == Alloc(old(Snap()), parentId)
    {
      FirstFreeSlot();
      AllocKeepsPlaced(Snap(), parentId);
      AllocFields(Snap(), parentId);
      ghost var after := Alloc(Snap(), parentId);
      hide Threads, Threaded, NoDup, Placed, Member, NextId, Alloc;
      var e := freeFirst.value;
      InitSlot(e, parentId);
      QueuePush(0, e);
      assert Snap() == after;
    }

    /** The field assignments of env_alloc and sched_alloc_env. */
    method InitSlot(e: nat, parentId: int)
      requires Sized(Snap()) && |next| == |link| == NENV && e < NENV && free != []
      modifies `status, `id, `parent, `qnum, `recving, `next, `freeFirst, `free
      ensures Snap() == Sys(old(status)[e := RUNNABLE], old(id)[e := NextId(old(id)[e], e)], old(parent)[e := parentId],
                            old(qnum)[e := 0], old(recving)[e := false], from, value, queues, old(free)[1..], cur, stopped)
      ensures next == old(next)[e := None] && freeFirst == link[e]
    {
      hide NextId;
      id, parent, status := id[e := NextId(id[e], e)], parent[e := parentId], status[e := RUNNABLE];
      recving := recving[e := false];
      freeFirst, free := link[e], free[1..];
      next, qnum := next[e := None], qnum[e := 0];
    }

    /** env_free, without the address space. */
    method EnvFree(e: nat)
      requires Valid() && Live(Snap(), e)
      modifies `status, `link, `freeFirst, `free, `next, `first, `last, `count, `queues
      ensures Valid() && Snap() == Release(old(Snap()), e)
    {
      ReleaseKeepsPlaced(Snap(), e);
      assert e !in free;
      ThreadPush(free, link, e);
      ghost var after := Release(Snap(), e);
      hide Threads, Threaded, NoDup, Remove, Placed;
      status := status[e := FREE];
      link := link[e := freeFirst];
      freeFirst := Some(e);
      free := [e] + free;
      QueueRemove(qnum[e], e);
      assert Snap() == after;
    }

    // -------------------------------------------------------------- scheduling

    /** sched_round_robin: the environment it would pass to env_run, if any. */
    method RoundRobin(i: nat, lastRun: Option<nat>) returns (pick: Option<nat>)
      requires Valid() && i < NQUEUES && (lastRun.Some? ==> lastRun.value in queues[i])
      ensures pick == FirstEligible(Snap(), Circle(queues[i], lastRun), lastRun)
    {
      hide Valid, FirstEligible, Circle, IndexOf, NoDup;
      QueueFacts(i);
      ghost var start: nat := if lastRun.None? then 0 else IndexOf(queues[i], lastRun.value) + 1;
      CircleFrom(queues[i], lastRun);
      pick := ScanFrom(i, lastRun, start);
      if pick.Some? || lastRun == None {
        if pick == None {
          NoneEligible(Snap(), Circle(queues[i], lastRun), lastRun);
        }
        return;
      }
      pick := ScanUpTo(i, lastRun.value, start);
    }

    /** The first loop: from just after the last environment run to the tail. */
    method ScanFrom(i: nat, lastRun: Option<nat>, ghost start: nat) returns (pick: Option<nat>)
      requires Valid() && i < NQUEUES && start <= |queues[i]| == |Circle(queues[i], lastRun)|
      requires if lastRun.None? then start == 0 else start > 0 && queues[i][start - 1] == lastRun.value
      requires forall p: nat | start <= p < |queues[i]| ::
                 Circle(queues[i], lastRun)[p - start] == queues[i][p] && lastRun != Some(queues[i][p])
      ensures pick.Some? ==> pick == FirstEligible(Snap(), Circle(queues[i], lastRun), lastRun)
      ensures pick.None? ==> forall j: nat | j < |queues[i]| - start :: !Eligible(Snap(), Circle(queues[i], lastRun)[j], lastRun)
    {
      hide Valid, IndexOf, Circle, NoDup, FirstEligible;
      QueueFacts(i);
      ghost var q, order, s := queues[i], Circle(queues[i], lastRun), Snap();
      var curr := if lastRun.Some? then next[lastRun.value] else first[i];
      ghost var p := start;
      while curr.Some?
        invariant start <= p <= |q| && curr == (if p < |q| then Some(q[p]) else None)
        invariant forall j: nat | j < p - start :: !Eligible(s, order[j], lastRun)
        decreases |q| - p
      {
        assert order[p - start] == q[p];
        if status[curr.value] == RUNNABLE {
          FirstEligibleAt(s, order, lastRun, p - start);
          return curr;
        }
        curr := next[curr.value];
        p := p + 1;
      }
      pick := None;
    }

    /** The second loop: from the head up to and including the last environment run. */
    method ScanUpTo(i: nat, lastRun: nat, ghost start: nat) returns (pick: Option<nat>)
      requires Valid() && i < NQUEUES && 0 < start <= |queues[i]| == |Circle(queues[i], Some(lastRun))|
      requires queues[i][start - 1] == lastRun
      requires forall p: nat | p < start :: Circle(queues[i], Some(lastRun))[|queues[i]| - start + p] == queues[i][p]
      requires forall j: nat | j < |queues[i]| - start :: !Eligible(Snap(), Circle(queues[i], Some(lastRun))[j], Some(lastRun))
      ensures pick == FirstEligible(Snap(), Circle(queues[i], Some(lastRun)), Some(lastRun))
    {
      hide Valid, IndexOf, Circle, FirstEligible;
      QueueFacts(i);
      ghost var q, order, s := queues[i], Circle(queues[i], Some(lastRun)), Snap();
      assert forall p: nat | p < start < |q| :: q[p] != q[start];
      hide NoDup;
      var curr := first[i];
      ghost var p := 0;
      while curr.Some? && curr != next[lastRun]
        invariant p <= start && curr == (if p < |q| then Some(q[p]) else None)
        invariant forall j: nat | j < |q| - start + p :: !Eligible(s, order[j], Some(lastRun))
        decreases |q| - p
      {
        assert p < start && order[|q| - start + p] == q[p];
        if status[curr.value] == RUNNABLE || (status[curr.value] == RUNNING && curr == Some(lastRun)) {
          FirstEligibleAt(s, order, Some(lastRun), |q| - start + p);
          return curr;
        }
        curr := next[curr.value];
        p := p + 1;
      }
      NoneEligible(s, order, Some(lastRun));
      pick := None;
    }

    lemma QueueFacts(i: nat)
      requires Valid() && i < NQUEUES
      ensures |queues| == |first| == NQUEUES && |next| == |status| == NENV
      ensures first[i] == First(queues[i]) && NoDup(queues[i])
      ensures forall k: nat | k < |queues[i]| :: queues[i][k] < NENV
      ensures forall k: nat {:trigger next[queues[i][k]]} | k < |queues[i]| :: next[queues[i][k]] == Successor(queues[i], k)
    {
      assert QueueOk(Links(), i, queues[i]);
    }

    /** sched_MLFQ up to the choice. */
    method ChooseNext(c: nat, k: Clock) returns (pick: Option<nat>)
      requires Valid() && InKernel(Snap(), c)
      modifies `next, `first, `last, `count, `queues, `qnum
      ensures Valid() && Snap() == Prepared(old(Snap()), c, k) && pick == Choose(Snap(), c)
    {
      hide Valid, Reprioritize, Boosted, PickFrom, FirstEligible, Circle;
      ghost var s := Snap();
      PreparedKeepsKernel(s, c, k);
      if k.downgrade && cur[c].Some? && qnum[cur[c].value] < NQUEUES - 1 {
        ChangePriority(cur[c].value, qnum[cur[c].value] + 1);
      }
      assert Snap() == Downgraded(s, c, k);
      if k.boost {
        Boost();
      }
      assert Snap() == Prepared(s, c, k);
      pick := FindIn(c);
    }

    /** The search of sched_MLFQ over the queues. */
    method FindIn(c: nat) returns (pick: Option<nat>)
      requires Valid() && InKernel(Snap(), c)
      ensures pick == Choose(Snap(), c)
    {
      hide Valid, FirstEligible, Circle;
      ghost var s := Snap();
      for i := 0 to NQUEUES
        invariant Choose(s, c) == PickFrom(s, c, i)
      {
        pick := RoundRobin(i, if cur[c].Some? && qnum[cur[c].value] == i then cur[c] else None);
        assert pick == PickIn(s, c, i);
        if pick.Some? {
          return;
        }
      }
      pick := None;
    }

    /** env_switch. */
    method EnvSwitch(c: nat, e: nat)
      requires Valid() && InKernel(Snap(), c) && CanRun(Snap(), c, e)
      modifies `status, `cur
      ensures Valid() && Snap() == SwitchTo(old(Snap()), c, e)
    {
      hide Threads, Threaded, Placed;
      SwitchReleasesLock(Snap(), c, e);
      ghost var after := SwitchTo(Snap(), c, e);
      if cur[c].Some? && status[cur[c].value] == RUNNING {
        status := status[cur[c].value := RUNNABLE];
      }
      cur := cur[c := Some(e)];
      status := status[e := RUNNING];
      assert Snap() == after;
    }

    /** sched_halt. */
    method SchedHalt(c: nat)
      requires Valid() && InKernel(Snap(), c)
      modifies `cur, `stopped
      ensures Valid() && Snap() == Halt(old(Snap()), c)
    {
      hide Threads, Threaded, Placed;
      ghost var s := Snap();
      var i := 0;
      while i < NENV
        invariant i <= NENV && forall e: nat | e < i :: !Runnish(status[e])
      {
        if Runnish(status[i]) {
          break;
        }
        i := i + 1;
      }
      HaltKeepsPlaced(s, c);
      if i == NENV {
        stopped := true;
      } else {
        cur := cur[c := None];
      }
      assert Snap() == Halt(s, c);
    }

    lemma HaltKeepsPlaced(s: Sys, c: nat)
      requires Placed(s) && c < |s.cur|
      ensures Placed(Halt(s, c))
    {
      var t := Halt(s, c);
      assert forall i: nat, x: nat | i < NQUEUES :: Member(t, i, x) <==> Member(s, i, x);
    }

    /** sched_yield. */
    method SchedYield(c: nat, k: Clock)
      requires Valid() && InKernel(Snap(), c)
      modifies this
      ensures Valid() && Snap() == Yield(old(Snap()), c, k)
      ensures forall e: nat | e < NENV && old(Live(Snap(), e)) :: e < |status| && (Runnish(status[e]) <==> old(Runnish(Snap().status[e])))
    {
      hide Valid, InKernel, Prepared, Choose, Halt, SwitchTo, CanRun, Outside, LifecycleOk, Runnish;
      forall e: nat | e < NENV && Live(Snap(), e)
        ensures e < |Yield(Snap(), c, k).status| && (Runnish(Yield(Snap(), c, k).status[e]) <==> Runnish(Snap().status[e]))
      {
        Calls.YieldKeepsRunnish(Snap(), c, k, e);
      }
      PreparedKeepsKernel(Snap(), c, k);
      PreparedIsPlaced(Snap(), c, k);
      ChoiceCanRun(Prepared(Snap(), c, k), c);
      var pick := ChooseNext(c, k);
      match pick
      case Some(e) => EnvSwitch(c, e);
      case None => SchedHalt(c);
    }

    // -------------------------------------------------------------- system calls

    /** How a call left the kernel: still in it, or on its way to sched_yield. */
    ghost function Left(resched: bool, r: int): Outcome
      reads this
    {
      if resched then Yielded(Snap()) else Returned(Snap(), r)
    }

    /** envid2env. */
    method EnvidToEnv(c: nat, envid: int, checkperm: bool) returns (e: Option<nat>)
      requires Valid() && c < |cur| && cur[c].Some? && Live(Snap(), cur[c].value)
      ensures e == Lookup(Snap(), c, envid, checkperm) && (e.Some? ==> Live(Snap(), e.value))
    {
      if envid == 0 {
        return cur[c];
      }
      var x: nat := envid % NENV;
      if status[x] == FREE || id[x] != envid {
        return None;
      }
      if checkperm && Some(x) != cur[c] && parent[x] != id[cur[c].value] {
        return None;
      }
      e := Some(x);
    }

    /** env_destroy. */
    method EnvDestroy(c: nat, e: nat) returns (resched: bool)
      requires Valid() && c < |cur| && Live(Snap(), e)
      modifies this
      ensures Valid() && Left(resched, E_OK) == Destroy(old(Snap()), c, e)
    {
      ghost var s := Snap();
      assert Sized(s) && s.qnum[e] < NQUEUES;
      hide Threads, Threaded, Placed, Release;
      resched := false;
      if status[e] == RUNNING && cur[c] != Some(e) {
        StatusKeepsPlaced(s, e, DYING);
        status := status[e := DYING];
        assert Snap() == s.(status := s.status[e := DYING]);
      } else {
        EnvFree(e);
        if cur[c] == Some(e) {
          CurKeepsPlaced(Snap(), Snap().cur[c := None]);
          cur := cur[c := None];
          assert Snap() == Release(s, e).(cur := s.cur[c := None]);
          resched := true;
        }
      }
    }

    lemma CurKeepsPlaced(s: Sys, cur: seq<Option<nat>>)
      requires Placed(s)
      ensures Placed(s.(cur := cur))
    {
      assert forall i: nat, x: nat | i < NQUEUES :: Member(s.(cur := cur), i, x) <==> Member(s, i, x);
    }

    /** sys_exofork. */
    method Fork(c: nat, memory: bool) returns (r: int)
      requires Valid() && Running(Snap(), c)
      modifies this
      ensures Valid() && Left(false, r) == Exofork(old(Snap()), c, memory)
    {
      hide Valid, Placed, InKernel, Reprioritize, Alloc;
      ghost var s := Snap();
      RunningFacts(s, c);
      var me := cur[c].value;
      var e: nat;
      r, e := EnvAlloc(id[me], memory);
      if r != E_OK {
        return;
      }
      AllocFacts(s, s.id[me]);
      Settle(e);
      ChangePriority(e, qnum[me]);
      r := id[e];
    }

    /** The line of sys_exofork that keeps the child from running. */
    method Settle(e: nat)
      requires Valid() && Live(Snap(), e)
      modifies `status
      ensures Valid() && Snap() == old(Snap()).(status := old(status)[e := NOT_RUNNABLE])
    {
      hide Threads, Threaded, Placed;
      StatusKeepsPlaced(Snap(), e, NOT_RUNNABLE);
      status := status[e := NOT_RUNNABLE];
      assert Snap() == old(Snap()).(status := old(status)[e := NOT_RUNNABLE]);
    }

    /** sys_env_set_status. */
    method SetEnvStatus(c: nat, envid: int, newStatus: Status) returns (r: int)
      requires Valid() && Running(Snap(), c)
      modifies `status
      ensures Valid() && Left(false, r) == SetStatus(old(Snap()), c, envid, newStatus)
    {
      hide Threads, Threaded, Placed, InKernel;
      ghost var s := Snap();
      RunningFacts(s, c);
      if newStatus != RUNNABLE && newStatus != NOT_RUNNABLE {
        return E_INVAL;
      }
      var e := EnvidToEnv(c, envid, true);
      if e == None {
        return E_BAD_ENV;
      }
      StatusKeepsPlaced(s, e.value, newStatus);
      status := status[e.value := newStatus];
      assert Snap() == s.(status := s.status[e.value := newStatus]);
      r := E_OK;
    }

    /** sys_change_prio. */
    method ChangeEnvPrio(c: nat, envid: int, prio: int) returns (r: int)
      requires Valid() && Running(Snap(), c)
      modifies this
      ensures Valid() && Left(false, r) == ChangePrio(old(Snap()), c, envid, prio)
    {
      hide Valid, Placed, InKernel, Reprioritize;
      RunningFacts(Snap(), c);
      var e := EnvidToEnv(c, envid, true);
      if e == None {
        return E_BAD_ENV;
      }
      if !(0 <= prio < NQUEUES) || prio < qnum[e.value] {
        return E_INVAL;
      }
      if prio == qnum[e.value] {
        return E_OK;
      }
      ChangePriority(e.value, prio);
      r := E_OK;
    }

    /** sys_ipc_try_send. */
    method IpcTrySend(c: nat, envid: int, v: int, pageError: int) returns (r: int)
      requires Valid() && Running(Snap(), c)
      modifies `from, `recving, `value, `status
      ensures Valid() && Left(false, r) == TrySend(old(Snap()), c, envid, v, pageError)
      ensures forall e: nat | e < |old(recving)| == |recving| == |status| && old(recving)[e] && !recving[e] :: status[e] == RUNNABLE
    {
      hide Threads, Threaded, Placed, InKernel;
      ghost var s := Snap();
      RunningFacts(s, c);
      var e := EnvidToEnv(c, envid, false);
      if e == None {
        return E_BAD_ENV;
      }
      if !recving[e.value] {
        return E_IPC_NOT_RECV;
      }
      if pageError < 0 {
        return pageError;
      }
      StatusKeepsPlaced(s, e.value, RUNNABLE);
      ghost var after := TrySend(s, c, envid, v, pageError).sys;
      BoxesKeepPlaced(s.(status := after.status), after);
      from := from[e.value := id[cur[c].value]];
      recving := recving[e.value := false];
      value := value[e.value := v];
      status := status[e.value := RUNNABLE];
      assert Snap() == after;
      r := E_OK;
    }

    /** sys_ipc_recv. */
    method IpcRecv(c: nat, goodAddress: bool) returns (resched: bool, r: int)
      requires Valid() && Running(Snap(), c)
      modifies `recving, `status
      ensures Valid() && Left(resched, r) == Recv(old(Snap()), c, goodAddress)
    {
      hide Threads, Threaded, Placed, InKernel;
      ghost var s := Snap();
      RunningFacts(s, c);
      ghost var after := Recv(s, c, goodAddress).sys;
      StatusKeepsPlaced(s, cur[c].value, after.status[s.cur[c].value]);
      BoxesKeepPlaced(s.(status := after.status), after);
      recving := recving[cur[c].value := true];
      if goodAddress {
        status := status[cur[c].value := NOT_RUNNABLE];
        assert Snap() == after;
        return true, E_OK;
      }
      assert Snap() == after;
      return false, E_INVAL;
    }

    /** trap_dispatch and syscall. */
    method TrapDispatch(c: nat, call: Call) returns (resched: bool, r: int)
      requires Valid() && Running(Snap(), c)
      modifies this
      ensures Valid()
      ensures if resched then Dispatch(old(Snap()), c, call) == Yielded(Snap())
              else Dispatch(old(Snap()), c, call) == Returned(Snap(), r)
    {
      hide Valid, Placed, InKernel, Lookup, Exofork, SetStatus, ChangePrio, TrySend, Recv, Destroy;
      RunningFacts(Snap(), c);
      resched, r := false, E_OK;
      match call
      case Timer => resched := true;
      case Fault => resched := EnvDestroy(c, cur[c].value);
      case Other =>
      case SysYield => resched := true;
      case SysDestroy(envid) =>
        var e := EnvidToEnv(c, envid, true);
        if e == None {
          r := E_BAD_ENV;
        } else {
          resched := EnvDestroy(c, e.value);
        }
      case SysExofork(memory) => r := Fork(c, memory);
      case SysSetStatus(envid, newStatus) => r := SetEnvStatus(c, envid, newStatus);
      case SysChangePrio(envid, prio) => r := ChangeEnvPrio(c, envid, prio);
      case SysTrySend(envid, v, pageError) => r := IpcTrySend(c, envid, v, pageError);
      case SysRecv(good) => resched, r := IpcRecv(c, good);
    }

    /** A zombie found on the way in: env_free(curenv), curenv = NULL. */
    method Reap(c: nat)
      requires Valid() && c < |cur| && cur[c].Some? && Live(Snap(), cur[c].value)
      modifies this
      ensures Valid() && Placed(old(Snap())) && Snap() == Reaped(old(Snap()), c)
    {
      hide Threads, Threaded, Placed, Release;
      ghost var s := Snap();
      EnvFree(cur[c].value);
      CurKeepsPlaced(Snap(), Snap().cur[c := None]);
      cur := cur[c := None];
      assert Snap() == Reaped(s, c);
    }

    lemma TimerKeepsRunnish(s: Sys, c: nat, k: Clock)
      requires CanTrap(s, c, Timer)
      ensures var t := Trap(s, c, Timer, k);
              forall e: nat | Live(s, e) && s.status[e] != DYING :: e < |t.status| && (Runnish(t.status[e]) <==> Runnish(s.status[e]))
    {
      hide CanTrap, Trap;
      forall e: nat | Live(s, e) && s.status[e] != DYING
        ensures e < |Trap(s, c, Timer, k).status| && (Runnish(Trap(s, c, Timer, k).status[e]) <==> Runnish(s.status[e]))
      {
        Calls.TickKeepsRunnish(s, c, Timer, k, e);
      }
    }

    /** trap(), between lock_kernel and unlock_kernel. */
    method HandleTrap(c: nat, call: Call, k: Clock)
      requires Valid() && CanTrap(Snap(), c, call)
      modifies this
      ensures Valid() && Snap() == Trap(old(Snap()), c, call, k)
      ensures call.Timer? ==>
                forall e: nat | e < NENV && old(Live(Snap(), e)) && old(Snap().status[e]) != DYING ::
                  e < |status| && (Runnish(status[e]) <==> old(Runnish(Snap().status[e])))
    {
      hide Valid, Placed, InKernel, Dispatch, Guard, Yield, Outside, LifecycleOk, SwitchTo, Release, CanRun;
      ghost var s := Snap();
      if call.Timer? {
        TimerKeepsRunnish(s, c, k);
      }
      if cur[c] == None {
        OutsideIsKernel(s, c, call);
        SchedYield(c, k);
        return;
      }
      CurrentIsLive(s, c, call);
      if status[cur[c].value] == DYING {
        ReapedKeepsKernel(s, c);
        Reap(c);
        SchedYield(c, k);
        return;
      }
      DispatchKeepsInvariantExactly(s, c, call);
      var resched, r := TrapDispatch(c, call);
      ghost var t := Snap();
      KernelFacts(t, c);
      if !resched && cur[c].Some? && status[cur[c].value] == RUNNING && k.resume {
        CurrentCanRun(t, c);
        EnvSwitch(c, cur[c].value);
      } else {
        SchedYield(c, k);
      }
    }
  }
}
