/** Environment slots, the free list and the eight scheduling queues, after kern/sched.c and
    kern/env.c.

    `Sys` is what the kernel's environment table means: every queue as a sequence of slot
    numbers.  The functions on `Sys` say what each kernel operation does to that meaning;
    class `EnvTable` holds the intrusive linked lists themselves, and each of its methods is
    proved to do what the function says. */
module Mlfq {
  import opened Common

  datatype Status = FREE | DYING | RUNNABLE | RUNNING | NOT_RUNNABLE

  const NENV: nat := 1024
  const NQUEUES: nat := 8
  const GENERATION: int := 4096

  const E_OK: int := 0
  const E_BAD_ENV: int := -2
  const E_INVAL: int := -3
  const E_NO_MEM: int := -4
  const E_NO_FREE_ENV: int := -5
  const E_IPC_NOT_RECV: int := -7

  datatype Sys = Sys(
    status: seq<Status>,
    id: seq<int>,
    parent: seq<int>,
    qnum: seq<nat>,
    recving: seq<bool>,
    from: seq<int>,
    value: seq<int>,
    queues: seq<seq<nat>>,
    free: seq<nat>,
    cur: seq<Option<nat>>,     // curenv of each CPU
    stopped: bool)             // some CPU is in the kernel monitor for good

  // ---------------------------------------------------------------- sequences of slots

  ghost predicate NoDup(q: seq<nat>) {
    forall j: nat, k: nat | j < k < |q| :: q[j] != q[k]
  }

  /** Where `e` first stands in `q`, or `|q|`. */
  function IndexOf(q: seq<nat>, e: nat): (k: nat)
    ensures k <= |q| && (k < |q| <==> e in q)
    ensures k < |q| ==> q[k] == e
    ensures forall j: nat | j < k :: q[j] != e
  {
    if |q| == 0 then 0
    else if q[0] == e then 0
    else
      assert q == [q[0]] + q[1..];
      1 + IndexOf(q[1..], e)
  }

  function Remove(q: seq<nat>, e: nat): seq<nat> {
    var k := IndexOf(q, e);
    if k < |q| then q[..k] + q[k + 1..] else q
  }

  lemma RemoveMembers(q: seq<nat>, e: nat)
    requires NoDup(q)
    ensures NoDup(Remove(q, e)) && forall x: nat :: x in Remove(q, e) <==> x in q && x != e
  {
    var k, r := IndexOf(q, e), Remove(q, e);
    hide IndexOf;
    if k < |q| {
      assert q == q[..k] + [q[k]] + q[k + 1..];
      assert forall j: nat | j < |r| :: r[j] == q[if j < k then j else j + 1];
    }
  }

  lemma AppendNoDup(q: seq<nat>, e: nat)
    requires NoDup(q) && e !in q
    ensures NoDup(q + [e])
  {
  }

  function Flatten(qs: seq<seq<nat>>): seq<nat> {
    if |qs| == 0 then [] else Flatten(qs[..|qs| - 1]) + qs[|qs| - 1]
  }

  lemma FlattenMembers(qs: seq<seq<nat>>, e: nat)
    ensures e in Flatten(qs) <==> exists i: nat :: i < |qs| && e in qs[i]
  {
    if |qs| > 0 {
      var rest := qs[..|qs| - 1];
      FlattenMembers(rest, e);
      assert forall i: nat | i < |rest| :: rest[i] == qs[i];
      if e in qs[|qs| - 1] {
      } else if i: nat :| i < |qs| && e in qs[i] {
        assert rest[i] == qs[i];
      }
    }
  }

  /** No slot stands in two queues. */
  ghost predicate Separate(qs: seq<seq<nat>>) {
    && (forall i: nat | i < |qs| :: NoDup(qs[i]))
    && (forall i: nat, j: nat, e: nat | i < |qs| && j < |qs| && e in qs[i] && e in qs[j] :: i == j)
  }

  lemma FlattenNoDup(qs: seq<seq<nat>>)
    requires Separate(qs)
    ensures NoDup(Flatten(qs))
  {
    if |qs| > 0 {
      var rest, tail := qs[..|qs| - 1], qs[|qs| - 1];
      assert forall i: nat | i < |rest| :: rest[i] == qs[i];
      FlattenNoDup(rest);
      var front := Flatten(rest);
      forall j: nat, k: nat | j < |front| && k < |tail|
        ensures front[j] != tail[k]
      {
        FlattenMembers(rest, front[j]);
      }
    }
  }

  // ---------------------------------------------------------------- the invariant

  ghost predicate Sized(s: Sys) {
    && |s.status| == |s.id| == |s.parent| == |s.qnum| == |s.recving| == |s.from| == |s.value| == NENV
    && |s.queues| == NQUEUES
  }

  /** Every slot is on the free list or in exactly the queue its number says, once. */
  ghost predicate Placed(s: Sys) {
    && Sized(s)
    && (forall i: nat | i < NQUEUES :: NoDup(s.queues[i]))
    && NoDup(s.free)
    && (forall e: nat :: e in s.free <==> e < NENV && s.status[e] == FREE)
    && (forall e: nat | e < NENV && s.status[e] != FREE :: s.qnum[e] < NQUEUES)
    && (forall i: nat, e: nat | i < NQUEUES :: e in s.queues[i] <==> Member(s, i, e))
  }

  ghost predicate Member(s: Sys, i: nat, e: nat)
    requires Sized(s)
  {
    e < NENV && s.status[e] != FREE && s.qnum[e] == i
  }

  predicate Live(s: Sys, e: nat) {
    e < |s.status| && s.status[e] != FREE
  }

  // ---------------------------------------------------------------- operations

  /** Two's complement, 32 bits. */
  function Wrap32(x: int): int {
    (x + 0x8000_0000) % 0x1_0000_0000 - 0x8000_0000
  }

  /** The id env_alloc makes from the one the slot last held. */
  function NextId(id: int, e: nat): int {
    var shifted := Wrap32(id + GENERATION);
    var generation := shifted - shifted % NENV;
    (if generation <= 0 then GENERATION else generation) + e
  }

  function Alloc(s: Sys, parentId: int): Sys
    requires Sized(s) && s.free != [] && s.free[0] < NENV
  {
    var e := s.free[0];
    s.(status := s.status[e := RUNNABLE],
       id := s.id[e := NextId(s.id[e], e)],
       parent := s.parent[e := parentId],
       qnum := s.qnum[e := 0],
       recving := s.recving[e := false],
       queues := s.queues[0 := s.queues[0] + [e]],
       free := s.free[1..])
  }

  lemma AllocKeepsPlaced(s: Sys, parentId: int)
    requires Placed(s) && s.free != []
    ensures s.free[0] < NENV && Placed(Alloc(s, parentId))
  {
    var e := s.free[0];
    assert e in s.free;
    var t := Alloc(s, parentId);
    assert s.free == [e] + t.free;
    assert forall i: nat | i < NQUEUES :: e !in s.queues[i];
    AppendNoDup(s.queues[0], e);
    hide NextId;
    assert forall x: nat :: x in t.free <==> x in s.free && x != e;
    forall i: nat, x: nat | i < NQUEUES
      ensures x in t.queues[i] <==> Member(t, i, x)
    {
      assert x in s.queues[i] <==> Member(s, i, x);
    }
  }

  /** env_free, as far as the table goes. */
  function Release(s: Sys, e: nat): Sys
    requires Sized(s) && e < NENV && s.qnum[e] < NQUEUES
  {
    s.(status := s.status[e := FREE],
       free := [e] + s.free,
       queues := s.queues[s.qnum[e] := Remove(s.queues[s.qnum[e]], e)])
  }

  lemma ReleaseKeepsPlaced(s: Sys, e: nat)
    requires Placed(s) && Live(s, e)
    ensures Placed(Release(s, e))
  {
    var t := Release(s, e);
    RemoveMembers(s.queues[s.qnum[e]], e);
    assert e !in s.free;
  }

  /** env_change_priority: to the tail of the new queue, even when it is the old one. */
  function Reprioritize(s: Sys, e: nat, prio: nat): Sys
    requires Sized(s) && e < NENV && s.qnum[e] < NQUEUES
  {
    if prio >= NQUEUES then s
    else
      var without := s.queues[s.qnum[e] := Remove(s.queues[s.qnum[e]], e)];
      s.(qnum := s.qnum[e := prio], queues := without[prio := without[prio] + [e]])
  }

  lemma ReprioritizeKeepsPlaced(s: Sys, e: nat, prio: nat)
    requires Placed(s) && Live(s, e)
    ensures Placed(Reprioritize(s, e, prio))
  {
    RemoveMembers(s.queues[s.qnum[e]], e);
    if prio < NQUEUES {
      var without := s.queues[s.qnum[e] := Remove(s.queues[s.qnum[e]], e)];
      assert e !in without[prio];
      AppendNoDup(without[prio], e);
    }
  }

  function BoostedNumbers(s: Sys): (r: seq<nat>)
    requires Sized(s)
    ensures |r| == NENV
  {
    seq(NENV, (e: int) requires Sized(s) && 0 <= e < NENV => if s.status[e] == FREE then s.qnum[e] else 0)
  }

  /** boost: one queue, holding every queue in order. */
  function Boosted(s: Sys): Sys
    requires Sized(s)
  {
    s.(qnum := BoostedNumbers(s), queues := [Flatten(s.queues), [], [], [], [], [], [], []])
  }

  lemma PlacedIsSeparate(s: Sys)
    requires Placed(s)
    ensures Separate(s.queues)
  {
  }

  lemma BoostedKeepsPlaced(s: Sys)
    requires Placed(s)
    ensures Placed(Boosted(s))
  {
    PlacedIsSeparate(s);
    FlattenNoDup(s.queues);
    var t := Boosted(s);
    forall i: nat, e: nat | i < NQUEUES
      ensures e in t.queues[i] <==> Member(t, i, e)
    {
      FlattenMembers(s.queues, e);
      if i == 0 && Member(t, 0, e) {
        assert e in s.queues[s.qnum[e]];
      }
    }
  }

  // ---------------------------------------------------------------- choosing

  /** The order in which the round robin looks at a queue. */
  function Circle(q: seq<nat>, last: Option<nat>): seq<nat> {
    if last.None? then q
    else
      var k := IndexOf(q, last.value);
      if k < |q| then q[k + 1..] + q[..k + 1] else q
  }

  predicate Eligible(s: Sys, e: nat, last: Option<nat>) {
    e < |s.status| && (s.status[e] == RUNNABLE || (s.status[e] == RUNNING && last == Some(e)))
  }

  function FirstEligible(s: Sys, order: seq<nat>, last: Option<nat>): (r: Option<nat>)
    ensures r.Some? ==> r.value in order && Eligible(s, r.value, last)
    ensures r.None? ==> forall e | e in order :: !Eligible(s, e, last)
  {
    if |order| == 0 then None
    else if Eligible(s, order[0], last) then Some(order[0])
    else
      assert order == [order[0]] + order[1..];
      FirstEligible(s, order[1..], last)
  }

  /** The environment a CPU was running counts only in the queue that holds it. */
  function LastIn(s: Sys, c: nat, i: nat): Option<nat> {
    if c < |s.cur| && s.cur[c].Some? && s.cur[c].value < |s.qnum| && s.qnum[s.cur[c].value] == i then s.cur[c] else None
  }

  function PickIn(s: Sys, c: nat, i: nat): Option<nat> {
    if i < |s.queues| then FirstEligible(s, Circle(s.queues[i], LastIn(s, c, i)), LastIn(s, c, i)) else None
  }

  function PickFrom(s: Sys, c: nat, i: nat): Option<nat>
    decreases NQUEUES - i
  {
    if i >= NQUEUES then None
    else if PickIn(s, c, i).Some? then PickIn(s, c, i)
    else PickFrom(s, c, i + 1)
  }

  /** What sched_MLFQ chooses for CPU `c`. */
  function Choose(s: Sys, c: nat): Option<nat> {
    PickFrom(s, c, 0)
  }

  /** How many places of the circle come between `last` and `x`. */
  function Turn(q: seq<nat>, last: Option<nat>, x: nat): nat {
    var i := IndexOf(q, x);
    if last.None? then i
    else
      var k := IndexOf(q, last.value);
      if k >= |q| then i else if i > k then i - k - 1 else |q| - 1 - k + i
  }

  lemma TurnIsCirclePosition(q: seq<nat>, last: Option<nat>, x: nat)
    requires NoDup(q) && x in q
    ensures Turn(q, last, x) < |q| == |Circle(q, last)| && Circle(q, last)[Turn(q, last, x)] == x
  {
    var i := IndexOf(q, x);
    if last.Some? {
      var k := IndexOf(q, last.value);
      if k < |q| {
        assert i > k ==> Circle(q, last)[i - k - 1] == q[k + 1..][i - k - 1] == q[i];
        assert i <= k ==> Circle(q, last)[|q| - 1 - k + i] == q[..k + 1][i] == q[i];
      }
    }
  }

  lemma CircleMembers(q: seq<nat>, last: Option<nat>, x: nat)
    ensures x in Circle(q, last) <==> x in q
  {
    if last.Some? && last.value in q {
      var k := IndexOf(q, last.value);
      assert q == q[..k + 1] + q[k + 1..];
    }
  }

  lemma FirstEligibleIsFirst(s: Sys, order: seq<nat>, last: Option<nat>, k: nat)
    requires k < |order| && Eligible(s, order[k], last)
    ensures FirstEligible(s, order, last).Some?
    ensures exists j: nat :: j <= k && order[j] == FirstEligible(s, order, last).value
  {
    if !Eligible(s, order[0], last) {
      FirstEligibleIsFirst(s, order[1..], last, k - 1);
      var j: nat :| j <= k - 1 && order[1..][j] == FirstEligible(s, order[1..], last).value;
      assert order[j + 1] == FirstEligible(s, order, last).value;
    } else {
      assert order[0] == FirstEligible(s, order, last).value;
    }
  }

  /** The round robin over one queue serves the eligible member whose turn comes first. */
  lemma RoundRobinServesNextTurn(s: Sys, q: seq<nat>, last: Option<nat>, x: nat)
    requires NoDup(q) && x in q && Eligible(s, x, last)
    ensures var r := FirstEligible(s, Circle(q, last), last);
            r.Some? && r.value in q && Eligible(s, r.value, last) && Turn(q, last, r.value) <= Turn(q, last, x)
  {
    var order := Circle(q, last);
    TurnIsCirclePosition(q, last, x);
    FirstEligibleIsFirst(s, order, last, Turn(q, last, x));
    var e := FirstEligible(s, order, last).value;
    var j: nat :| j <= Turn(q, last, x) && order[j] == e;
    CircleMembers(q, last, e);
    TurnIsCirclePosition(q, last, e);
    CircleIsNoDup(q, last);
  }

  lemma CircleIsNoDup(q: seq<nat>, last: Option<nat>)
    requires NoDup(q)
    ensures NoDup(Circle(q, last))
  {
  }

  lemma PickFromIsHighest(s: Sys, c: nat, i: nat)
    requires Placed(s)
    ensures PickFrom(s, c, i).Some? ==>
              var e := PickFrom(s, c, i).value;
              Live(s, e) && i <= s.qnum[e] < NQUEUES && PickIn(s, c, s.qnum[e]) == Some(e) &&
              forall j: nat | i <= j < s.qnum[e] :: PickIn(s, c, j).None?
    ensures PickFrom(s, c, i).None? ==> forall j: nat | i <= j < NQUEUES :: PickIn(s, c, j).None?
    decreases NQUEUES - i
  {
    if i < NQUEUES {
      if PickIn(s, c, i).Some? {
        CircleMembers(s.queues[i], LastIn(s, c, i), PickIn(s, c, i).value);
      } else {
        PickFromIsHighest(s, c, i + 1);
      }
    }
  }

  /** What CPU `c` may run: a runnable environment, or the one it is running. */
  predicate CanRun(s: Sys, c: nat, e: nat) {
    c < |s.cur| && Eligible(s, e, s.cur[c])
  }

  /** The scheduler's choice: the lowest-numbered queue that has anyone to run, and in it the
      first in circular order after the environment the CPU was running. */
  lemma ChoiceIsFirstInLowestQueue(s: Sys, c: nat, x: nat)
    requires Placed(s) && CanRun(s, c, x)
    ensures Choose(s, c).Some?
    ensures var e := Choose(s, c).value;
            && CanRun(s, c, e) && s.qnum[e] <= s.qnum[x]
            && (s.qnum[e] == s.qnum[x] ==>
                  Turn(s.queues[s.qnum[e]], LastIn(s, c, s.qnum[e]), e) <= Turn(s.queues[s.qnum[e]], LastIn(s, c, s.qnum[e]), x))
  {
    hide FirstEligible, Circle, IndexOf, Turn, PickFrom, NoDup;
    var i := s.qnum[x];
    assert Member(s, i, x);
    assert x in s.queues[i];
    RoundRobinServesNextTurn(s, s.queues[i], LastIn(s, c, i), x);
    assert PickIn(s, c, i).Some?;
    PickFromIsHighest(s, c, 0);
  }

  lemma ChoiceCanRun(s: Sys, c: nat)
    requires Placed(s) && c < |s.cur|
    ensures Choose(s, c).Some? ==> CanRun(s, c, Choose(s, c).value) && Live(s, Choose(s, c).value)
    ensures Choose(s, c).None? ==> forall e: nat :: !CanRun(s, c, e)
  {
    PickFromIsHighest(s, c, 0);
    forall e: nat | CanRun(s, c, e)
      ensures Choose(s, c).Some?
    {
      ChoiceIsFirstInLowestQueue(s, c, e);
    }
  }

  // ---------------------------------------------------------------- no starvation in a queue

  /** One decision of CPU `c` that stays in queue `i`, whose members are `q`: it was running
      `last`, nothing above is runnable, and `m` of the queue is. */
  ghost predicate Decision(s: Sys, c: nat, i: nat, q: seq<nat>, m: nat, last: nat) {
    && Placed(s) && c < |s.cur| && s.cur[c] == Some(last)
    && i < NQUEUES && s.queues[i] == q && last in q && m in q && s.status[m] == RUNNABLE
    && forall j: nat | j < i :: PickIn(s, c, j).None?
  }

  lemma TurnAdvances(s: Sys, c: nat, i: nat, q: seq<nat>, m: nat, last: nat)
    requires Decision(s, c, i, q, m, last)
    ensures Choose(s, c).Some? && Choose(s, c).value in q
    ensures Choose(s, c).value == m || Turn(q, Choose(s, c), m) < Turn(q, Some(last), m)
  {
    hide FirstEligible, Circle, PickFrom, NoDup, IndexOf;
    assert Member(s, i, m) && Member(s, i, last);
    ChoiceIsFirstInLowestQueue(s, c, m);
    PickFromIsHighest(s, c, 0);
    var e := Choose(s, c).value;
    assert e in s.queues[s.qnum[e]];
    TurnIsCirclePosition(q, Some(last), e);
    TurnIsCirclePosition(q, Some(last), m);
  }

  /** A member's turn comes no later than there are others before it. */
  lemma {:induction false} ServedInTurn(
      states: seq<Sys>, picks: seq<nat>, c: nat, i: nat, q: seq<nat>, m: nat)
    requires |picks| == |states| + 1
    requires forall k: nat | k < |states| ::
               Decision(states[k], c, i, q, m, picks[k]) && Choose(states[k], c) == Some(picks[k + 1])
    requires |states| > 0 && |states| > Turn(q, Some(picks[0]), m)
    ensures m in picks[1..]
  {
    TurnAdvances(states[0], c, i, q, m, picks[0]);
    if picks[1] == m {
      assert picks[1..][0] == m;
    } else {
      ServedInTurn(states[1..], picks[1..], c, i, q, m);
      assert picks[1..][1..] == picks[2..];
    }
  }

  lemma TurnIsBelowQueueLength(s: Sys, c: nat, i: nat, q: seq<nat>, m: nat, last: nat)
    requires Decision(s, c, i, q, m, last)
    ensures Turn(q, Some(last), m) < |q|
  {
    TurnIsCirclePosition(q, Some(last), m);
  }

  /** While a CPU's choices stay in one queue of fixed members, whatever other CPUs do to the
      statuses in between, a member that is runnable at every decision is chosen within as
      many decisions as the queue has members. */
  lemma ServedWithinOneRound(states: seq<Sys>, picks: seq<nat>, c: nat, i: nat, q: seq<nat>, m: nat)
    requires |picks| == |states| + 1
    requires forall k: nat | k < |states| ::
               Decision(states[k], c, i, q, m, picks[k]) && Choose(states[k], c) == Some(picks[k + 1])
    requires |states| > 0 && |states| >= |q|
    ensures m in picks[1..]
  {
    TurnIsBelowQueueLength(states[0], c, i, q, m, picks[0]);
    ServedInTurn(states, picks, c, i, q, m);
  }

  // ---------------------------------------------------------------- environment ids

  /** The id slot `e` holds after `k` allocations. */
  function IdAfter(k: nat, e: nat): int {
    if k == 0 then 0 else NextId(IdAfter(k - 1, e), e)
  }

  const CYCLE: nat := 524287

  /** Closed form: generations count 1, 2, ..., 524287 and start again. */
  lemma {:induction false} IdInClosedForm(k: nat, e: nat)
    requires k > 0 && e < NENV
    ensures IdAfter(k, e) == GENERATION * ((k - 1) % CYCLE + 1) + e
  {
    if k > 1 {
      IdInClosedForm(k - 1, e);
      var g := (k - 2) % CYCLE;
      NextGeneration(g, e);
      CycleStep(k - 2);
    }
  }

  lemma CycleStep(k: nat)
    ensures (k + 1) % CYCLE == if k % CYCLE == CYCLE - 1 then 0 else k % CYCLE + 1
  {
  }

  lemma NextGeneration(g: nat, e: nat)
    requires g < CYCLE && e < NENV
    ensures NextId(GENERATION * (g + 1) + e, e) == GENERATION * (if g == CYCLE - 1 then 1 else g + 2) + e
  {
    var x := GENERATION * (g + 1) + e + GENERATION;
    if g == CYCLE - 1 {
      assert x == 0x8000_0000 + e;
    } else {
      assert Wrap32(x) == x;
      assert x == NENV * (4 * (g + 2)) + e;
    }
  }

  lemma SameRemainder(j: nat, k: nat)
    requires j <= k
    ensures j % CYCLE == k % CYCLE <==> (k - j) % CYCLE == 0
  {
    var a, b, d := j / CYCLE, k / CYCLE, (k - j) / CYCLE;
    assert j == CYCLE * a + j % CYCLE && k == CYCLE * b + k % CYCLE && k - j == CYCLE * d + (k - j) % CYCLE;
  }

  /** Ids are positive, carry their slot number, and no id returns to a slot within 524287
      allocations. */
  lemma IdsDoNotReturnSoon(j: nat, k: nat, e: nat)
    requires 0 < j < k && e < NENV
    ensures 0 < IdAfter(k, e) < 0x8000_0000 && IdAfter(k, e) % NENV == e
    ensures IdAfter(j, e) == IdAfter(k, e) <==> (k - j) % CYCLE == 0
  {
    hide IdAfter;
    IdInClosedForm(j, e);
    IdInClosedForm(k, e);
    SameRemainder(j - 1, k - 1);
    assert IdAfter(k, e) == NENV * (4 * ((k - 1) % CYCLE + 1)) + e;
  }
}
