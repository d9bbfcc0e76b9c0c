/** The process-per-prime sieve of primes.c: a chain of processes joined by bounded pipes.

    Process 0 writes 2, 3, ..., n; process k > 0 reads pipe k - 1 and, once it has forked,
    writes pipe k.  A step is one system call of one process (fork together with the pipe call
    before it), and any process that is not blocked may take the next one.  What a process still
    has to receive is a function of the state, and everything below is about that stream. */
module Sieve {

  datatype Proc =
    | SrcForked                     // main: about to close the read end of its pipe
    | Src(i: int)                   // main: about to write i, or to close when past n
    | Born                          // main's child: about to close the write end it inherited
    | Spawned                       // any other child: about to close the write end of its pipe
    | Heir                          // and then the read end of its grandparent's
    | Init                          // about to read its first number
    | Got(p: int)                   // about to print it
    | Printed(p: int)               // about to call pipe and fork
    | Forked(p: int)                // about to close the read end of the new pipe
    | Filter(p: int)                // about to read the next number
    | Holding(p: int, x: int)       // about to write x, which p does not divide
    | Eof(p: int)                   // about to close its input
    | Drained(p: int)               // about to close its output
    | Waiting                       // in wait(NULL) for its child
    | Exited

  /** Contents, and how many processes hold each end open. */
  datatype Pipe = Pipe(data: seq<int>, writers: nat, readers: nat)

  datatype State = State(n: int, cap: nat, procs: seq<Proc>, pipes: seq<Pipe>, out: seq<int>)

  // ---------------------------------------------------------------- steps

  predicate Sized(s: State) {
    |s.procs| == |s.pipes| + 1
  }

  predicate CanRead(p: Pipe) {
    p.data != [] || p.writers == 0
  }

  predicate Enabled(s: State, k: nat)
    requires Sized(s)
  {
    k < |s.procs| &&
    match s.procs[k]
    case Src(i) => k < |s.pipes| && (i <= s.n ==> |s.pipes[k].data| < s.cap)
    case SrcForked => k < |s.pipes|
    case Born => k > 0
    case Spawned => k > 1
    case Heir => k > 1
    case Init => k > 0 && CanRead(s.pipes[k - 1])
    case Filter(_) => k > 0 && CanRead(s.pipes[k - 1])
    case Got(_) => true
    case Printed(_) => 0 < k == |s.pipes|
    case Forked(_) => k < |s.pipes|
    case Holding(_, _) => k < |s.pipes| && |s.pipes[k].data| < s.cap
    case Eof(_) => k > 0
    case Drained(_) => k < |s.pipes|
    case Waiting => k < |s.pipes| && s.procs[k + 1] == Exited
    case Exited => false
  }

  function Minus(n: nat): nat {
    if n == 0 then 0 else n - 1
  }

  function Put(p: Pipe, x: int): Pipe {
    Pipe(p.data + [x], p.writers, p.readers)
  }

  function Take(p: Pipe): Pipe {
    if p.data == [] then p else Pipe(p.data[1..], p.writers, p.readers)
  }

  function CloseWriter(p: Pipe): Pipe {
    Pipe(p.data, Minus(p.writers), p.readers)
  }

  function CloseReader(p: Pipe): Pipe {
    Pipe(p.data, p.writers, Minus(p.readers))
  }

  /** fork copies the read end of the parent's own pipe as well. */
  function AddReader(p: Pipe): Pipe {
    Pipe(p.data, p.writers, p.readers + 1)
  }

  function Become(s: State, k: nat, q: Proc): State
    requires k < |s.procs|
  {
    s.(procs := s.procs[k := q])
  }

  function SetPipe(s: State, k: nat, p: Pipe): State
    requires k < |s.pipes|
  {
    s.(pipes := s.pipes[k := p])
  }

  predicate Divides(p: int, x: int) {
    p != 0 && x % p == 0
  }

  function Next(s: State, k: nat): State
    requires Sized(s) && Enabled(s, k)
  {
    match s.procs[k]
    case SrcForked => Become(SetPipe(s, k, CloseReader(s.pipes[k])), k, Src(2))
    case Src(i) =>
      if i <= s.n then Become(SetPipe(s, k, Put(s.pipes[k], i)), k, Src(i + 1))
      else Become(SetPipe(s, k, CloseWriter(s.pipes[k])), k, Waiting)
    case Born => Become(SetPipe(s, k - 1, CloseWriter(s.pipes[k - 1])), k, Init)
    case Spawned => Become(SetPipe(s, k - 1, CloseWriter(s.pipes[k - 1])), k, Heir)
    case Heir => Become(SetPipe(s, k - 2, CloseReader(s.pipes[k - 2])), k, Init)
    case Init =>
      var p := s.pipes[k - 1];
      if p.data == [] then Become(SetPipe(s, k - 1, CloseReader(p)), k, Exited)
      else Become(SetPipe(s, k - 1, Take(p)), k, Got(p.data[0]))
    case Got(p) => Become(s, k, Printed(p)).(out := s.out + [p])
    case Printed(p) =>
      State(s.n, s.cap, s.procs[k := Forked(p)] + [Spawned], s.pipes[k - 1 := AddReader(s.pipes[k - 1])] + [Pipe([], 2, 2)], s.out)
    case Forked(p) => Become(SetPipe(s, k, CloseReader(s.pipes[k])), k, Filter(p))
    case Filter(p) =>
      var q := s.pipes[k - 1];
      if q.data == [] then Become(s, k, Eof(p))
      else if Divides(p, q.data[0]) then SetPipe(s, k - 1, Take(q))
      else Become(SetPipe(s, k - 1, Take(q)), k, Holding(p, q.data[0]))
    case Holding(p, x) => Become(SetPipe(s, k, Put(s.pipes[k], x)), k, Filter(p))
    case Eof(p) => Become(SetPipe(s, k - 1, CloseReader(s.pipes[k - 1])), k, Drained(p))
    case Drained(_) => Become(SetPipe(s, k, CloseWriter(s.pipes[k])), k, Waiting)
    case Waiting => Become(s, k, Exited)
  }

  // ---------------------------------------------------------------- streams

  function Range(i: int, n: int): seq<int>
    decreases n - i
  {
    if i > n then [] else [i] + Range(i + 1, n)
  }

  /** The numbers `p` does not divide. */
  function Sift(p: int, xs: seq<int>): (r: seq<int>)
    ensures |r| <= |xs|
  {
    if |xs| == 0 then []
    else if Divides(p, xs[0]) then Sift(p, xs[1..])
    else [xs[0]] + Sift(p, xs[1..])
  }

  /** What process `q` will still write, given what it will still read. */
  function Coming(n: int, q: Proc, input: seq<int>): seq<int> {
    match q
    case SrcForked => Range(2, n)
    case Src(i) => Range(i, n)
    case Forked(p) => Sift(p, input)
    case Filter(p) => Sift(p, input)
    case Holding(p, x) => [x] + Sift(p, input)
    case _ => []
  }

  /** Everything process `k + 1` will ever read from now on. */
  function Stream(s: State, k: nat): seq<int>
    requires Sized(s) && k < |s.pipes|
  {
    s.pipes[k].data + Coming(s.n, s.procs[k], if k == 0 then [] else Stream(s, k - 1))
  }

  function Input(s: State, k: nat): seq<int>
    requires Sized(s) && k < |s.procs|
  {
    if k == 0 then [] else Stream(s, k - 1)
  }

  // ---------------------------------------------------------------- invariant

  predicate IsSource(n: int, q: Proc) {
    q.SrcForked? || (q.Src? && 2 <= q.i <= n + 1) || q.Waiting? || q.Exited?
  }

  /** A process that has forked. */
  predicate IsStage(q: Proc) {
    match q
    case Forked(p) => p >= 2
    case Filter(p) => p >= 2
    case Holding(p, x) => p >= 2 && x >= 2
    case Eof(p) => p >= 2
    case Drained(p) => p >= 2
    case Waiting => true
    case Exited => true
    case _ => false
  }

  /** The end of the chain. */
  predicate IsNewest(q: Proc) {
    q.Born? || q.Spawned? || q.Heir? || q.Init? || (q.Got? && q.p >= 2) || (q.Printed? && q.p >= 2) || q.Exited?
  }

  function Writes(q: Proc): nat {
    if q.SrcForked? || q.Src? || q.Forked? || q.Filter? || q.Holding? || q.Eof? || q.Drained? then 1 else 0
  }

  function Reads(q: Proc): nat {
    if q.Drained? || q.Waiting? || q.Exited? then 0 else 1
  }

  predicate AllNumbers(xs: seq<int>) {
    forall x | x in xs :: x >= 2
  }

  predicate PipeOk(s: State, k: nat)
    requires Sized(s) && k < |s.pipes|
  {
    && |s.pipes[k].data| <= s.cap && AllNumbers(s.pipes[k].data)
    && s.pipes[k].writers == Writes(s.procs[k]) + (if s.procs[k + 1].Born? || s.procs[k + 1].Spawned? then 1 else 0)
    && s.pipes[k].readers == Reads(s.procs[k + 1]) + (if s.procs[k].SrcForked? || s.procs[k].Forked? then 1 else 0)
                           + (if k + 2 < |s.procs| && (s.procs[k + 2].Spawned? || s.procs[k + 2].Heir?) then 1 else 0)
  }

  /** Past the end of its input. */
  predicate Finished(q: Proc) {
    q.Eof? || q.Drained? || q.Waiting? || q.Exited?
  }

  predicate ProcOk(s: State, k: nat)
    requires Sized(s) && k < |s.procs|
  {
    && KindOk(s, k)
    && (k > 0 && Finished(s.procs[k]) ==> Stream(s, k - 1) == [])
    && (s.procs[k].Exited? && k < |s.pipes| ==> s.procs[k + 1].Exited?)
  }

  ghost predicate ChainOk(s: State) {
    && Sized(s) && |s.pipes| >= 1 && s.cap >= 1 && s.n >= 2
    && (forall k: nat | k < |s.pipes| :: PipeOk(s, k))
    && (forall k: nat | k < |s.procs| :: ProcOk(s, k))
  }

  lemma SiftHead(p: int, x: int, xs: seq<int>)
    ensures Sift(p, [x] + xs) == if Divides(p, x) then Sift(p, xs) else [x] + Sift(p, xs)
  {
    assert ([x] + xs)[1..] == xs;
  }

  predicate TakesOne(s: State, k: nat)
    requires Sized(s) && Enabled(s, k)
  {
    (s.procs[k].Init? || s.procs[k].Filter?) && s.pipes[k - 1].data != []
  }

  lemma StepFrame(s: State, k: nat)
    requires Sized(s) && Enabled(s, k)
    ensures var t := Next(s, k);
            && Sized(t) && t.n == s.n && t.cap == s.cap && |s.pipes| <= |t.pipes| <= |s.pipes| + 1
            && (|t.pipes| > |s.pipes| <==> s.procs[k].Printed?)
            && (forall j: nat | j < |s.pipes| && j != k && j + 1 != k && j + 2 != k :: t.pipes[j] == s.pipes[j])
            && (k > 1 ==> t.pipes[k - 2] == if s.procs[k].Heir? then CloseReader(s.pipes[k - 2]) else s.pipes[k - 2])
            && (forall j: nat | j < |s.procs| && j != k :: t.procs[j] == s.procs[j])
            && (k > 0 ==> t.pipes[k - 1].data == if TakesOne(s, k) then s.pipes[k - 1].data[1..] else s.pipes[k - 1].data)
  {
  }

  /** What process `k` sends is decided by what it receives, whatever it is doing. */
  lemma OwnStream(s: State, k: nat, input: seq<int>)
    requires Sized(s) && Enabled(s, k) && k < |s.pipes| && (if k == 0 then IsSource(s.n, s.procs[k]) else IsStage(s.procs[k]))
    requires TakesOne(s, k) ==> |input| > 0 && input[0] == s.pipes[k - 1].data[0]
    requires s.procs[k].Filter? && !TakesOne(s, k) ==> input == []
    ensures var t := Next(s, k);
            t.pipes[k].data + Coming(t.n, t.procs[k], if TakesOne(s, k) then input[1..] else input) ==
            s.pipes[k].data + Coming(s.n, s.procs[k], input)
  {
    hide IsSource;
    var q, d := s.procs[k], s.pipes[k].data;
    match q
    case Filter(p) =>
      if TakesOne(s, k) {
        assert input == [input[0]] + input[1..];
        SiftHead(p, input[0], input[1..]);
      }
    case Holding(p, x) =>
      assert d + ([x] + Sift(p, input)) == (d + [x]) + Sift(p, input);
    case Src(i) =>
      if i <= s.n {
        assert d + ([i] + Range(i + 1, s.n)) == (d + [i]) + Range(i + 1, s.n);
      }
    case SrcForked =>
    case Forked(_) =>
    case Eof(_) =>
    case Drained(_) =>
    case _ =>
  }

  /** A read that finds the pipe empty and closed has nothing left to wait for. */
  lemma EndOfInput(s: State, k: nat)
    requires ChainOk(s) && 0 < k < |s.procs| && s.pipes[k - 1].data == [] && s.pipes[k - 1].writers == 0
    ensures Stream(s, k - 1) == []
  {
    assert PipeOk(s, k - 1) && ProcOk(s, k - 1);
  }

  lemma StreamAt(s: State, j: nat)
    requires Sized(s) && j < |s.pipes|
    ensures Stream(s, j) == s.pipes[j].data + Coming(s.n, s.procs[j], Input(s, j))
  {
  }

  lemma InputIsAhead(s: State, k: nat)
    requires ChainOk(s) && Enabled(s, k)
    ensures KindOk(s, k)
    ensures TakesOne(s, k) ==> |Input(s, k)| > 0 && Input(s, k)[0] == s.pipes[k - 1].data[0]
    ensures (s.procs[k].Filter? || s.procs[k].Init?) && !TakesOne(s, k) ==> Input(s, k) == []
  {
    assert ProcOk(s, k);
    if k > 0 && s.pipes[k - 1].data == [] && s.pipes[k - 1].writers == 0 {
      EndOfInput(s, k);
    }
    hide Coming, IsSource, IsStage, IsNewest;
  }

  /** A step of `k` shortens the stream `k` reads by what it read, and no other stream. */
  lemma {:induction false} StepKeepsStreams(s: State, k: nat, j: nat)
    requires ChainOk(s) && Enabled(s, k) && j < |s.pipes|
    ensures Sized(Next(s, k)) && j < |Next(s, k).pipes|
    ensures Stream(Next(s, k), j) == if j + 1 == k && TakesOne(s, k) then Stream(s, j)[1..] else Stream(s, j)
  {
    hide Next, Enabled, PipeOk, ProcOk, Coming, Stream, KindOk;
    StepFrame(s, k);
    var t := Next(s, k);
    if j > 0 {
      StepKeepsStreams(s, k, j - 1);
    }
    StreamAt(s, j);
    StreamAt(t, j);
    if j == k {
      InputIsAhead(s, k);
      KindOfStage(s, k);
      OwnStream(s, k, Input(s, k));
    } else if j + 1 == k && TakesOne(s, k) {
      var d := s.pipes[j].data;
      assert (d + Coming(s.n, s.procs[j], Input(s, j)))[1..] == d[1..] + Coming(s.n, s.procs[j], Input(s, j));
    }
  }

  lemma KindOfStage(s: State, k: nat)
    requires Sized(s) && k < |s.pipes| && KindOk(s, k)
    ensures if k == 0 then IsSource(s.n, s.procs[k]) else IsStage(s.procs[k])
  {
  }

  lemma PutTakeNumbers(xs: seq<int>)
    ensures AllNumbers([])
    ensures AllNumbers(xs) ==> forall x | x >= 2 :: AllNumbers(xs + [x])
    ensures AllNumbers(xs) && xs != [] ==> AllNumbers(xs[1..]) && xs[0] >= 2
  {
    if AllNumbers(xs) && xs != [] {
      assert xs[0] in xs;
      forall x | x in xs[1..] ensures x >= 2 { assert x in xs; }
    }
  }

  lemma StepKeepsOutput(s: State, k: nat)
    requires Sized(s) && Enabled(s, k) && Sized(Next(s, k)) && k < |s.pipes| && k < |Next(s, k).pipes|
    requires PipeOk(s, k) && KindOk(s, k) && KindOk(s, k + 1) && (k > 0 ==> AllNumbers(s.pipes[k - 1].data))
    ensures PipeOk(Next(s, k), k)
  {
    hide AllNumbers, Sift, Range, IsNewest;
    PutTakeNumbers(s.pipes[k].data);
    var t := Next(s, k);
    assert t.procs[k + 1] == s.procs[k + 1];
    match s.procs[k]
    case SrcForked =>
    case Src(i) =>
    case Holding(p, x) =>
    case Drained(_) =>
    case Forked(_) =>
    case _ =>
  }

  lemma StepKeepsInput(s: State, k: nat)
    requires Sized(s) && Enabled(s, k) && Sized(Next(s, k)) && 0 < k < |s.procs| && k - 1 < |Next(s, k).pipes|
    requires PipeOk(s, k - 1) && KindOk(s, k) && KindOk(s, k - 1)
    ensures PipeOk(Next(s, k), k - 1)
  {
    hide AllNumbers, Sift, Range, IsSource;
    PutTakeNumbers(s.pipes[k - 1].data);
    var t := Next(s, k);
    assert t.procs[k - 1] == s.procs[k - 1];
    match s.procs[k]
    case Born =>
    case Spawned =>
    case Heir =>
    case Init =>
    case Filter(p) =>
    case Eof(p) =>
    case _ =>
  }

  /** Only a child that closes what it inherited reaches further back than its own pipe. */
  lemma StepKeepsOther(s: State, k: nat, j: nat)
    requires Sized(s) && Enabled(s, k) && Sized(Next(s, k)) && j < |s.pipes| && j != k && j + 1 != k && j < |Next(s, k).pipes|
    requires PipeOk(s, j) && KindOk(s, k) && KindOk(s, j + 1)
    ensures PipeOk(Next(s, k), j)
  {
    hide AllNumbers, Sift, Range, IsSource;
    StepFrame(s, k);
    var t := Next(s, k);
    match s.procs[k]
    case Heir =>
    case Spawned =>
    case Printed(_) =>
    case _ =>
  }

  lemma StepKeepsPipe(s: State, k: nat, j: nat)
    requires ChainOk(s) && Enabled(s, k) && Sized(Next(s, k)) && j < |Next(s, k).pipes|
    ensures PipeOk(Next(s, k), j)
  {
    StepFrame(s, k);
    if j == |s.pipes| {
      PutTakeNumbers([]);
    } else if j == k {
      assert PipeOk(s, k) && ProcOk(s, k) && ProcOk(s, k + 1) && (k > 0 ==> PipeOk(s, k - 1));
      StepKeepsOutput(s, k);
    } else if j + 1 == k {
      assert PipeOk(s, j) && ProcOk(s, j) && ProcOk(s, k);
      StepKeepsInput(s, k);
    } else {
      assert PipeOk(s, j) && ProcOk(s, k) && ProcOk(s, j + 1);
      StepKeepsOther(s, k, j);
    }
  }

  /** The kind of every process is right for its place. */
  predicate KindOk(s: State, k: nat)
    requires Sized(s) && k < |s.procs|
  {
    if k == 0 then IsSource(s.n, s.procs[k]) else if k < |s.pipes| then IsStage(s.procs[k])
    else IsNewest(s.procs[k]) && (s.procs[k].Spawned? || s.procs[k].Heir? ==> k > 1)
  }

  lemma StepKeepsKind(s: State, k: nat, j: nat)
    requires ChainOk(s) && Enabled(s, k) && Sized(Next(s, k)) && j < |Next(s, k).procs|
    ensures KindOk(Next(s, k), j)
  {
    hide Stream, Coming;
    assert ProcOk(s, k);
    if j < |s.procs| {
      assert ProcOk(s, j);
    }
    if j == k && k > 0 {
      assert PipeOk(s, k - 1);
      PutTakeNumbers(s.pipes[k - 1].data);
    }
  }

  /** A process that stops reading has read everything. */
  lemma StepKeepsFinished(s: State, k: nat, j: nat)
    requires ChainOk(s) && Enabled(s, k) && Sized(Next(s, k)) && 0 < j < |Next(s, k).procs| && Finished(Next(s, k).procs[j])
    ensures Stream(Next(s, k), j - 1) == []
  {
    hide Stream, Coming, PipeOk, KindOk;
    StepFrame(s, k);
    StepKeepsStreams(s, k, j - 1);
    assert j < |s.procs| && ProcOk(s, j);
    if j == k && !Finished(s.procs[k]) {
      EndReached(s, k);
      EndOfInput(s, k);
    }
  }

  lemma EndReached(s: State, k: nat)
    requires ChainOk(s) && Enabled(s, k) && k > 0 && k < |Next(s, k).procs| && Finished(Next(s, k).procs[k]) && !Finished(s.procs[k])
    ensures s.pipes[k - 1].data == [] && s.pipes[k - 1].writers == 0 && !TakesOne(s, k)
  {
    hide Stream, Coming, PipeOk;
    assert ProcOk(s, k);
  }

  lemma StepKeepsProc(s: State, k: nat, j: nat)
    requires ChainOk(s) && Enabled(s, k) && Sized(Next(s, k)) && j < |Next(s, k).procs|
    ensures ProcOk(Next(s, k), j)
  {
    hide Stream, Coming;
    StepFrame(s, k);
    StepKeepsKind(s, k, j);
    if j > 0 && Finished(Next(s, k).procs[j]) {
      StepKeepsFinished(s, k, j);
    }
    assert ProcOk(s, k);
    if j < |s.procs| {
      assert ProcOk(s, j);
    }
  }

  lemma NextKeepsChain(s: State, k: nat)
    requires ChainOk(s) && Enabled(s, k)
    ensures ChainOk(Next(s, k))
  {
    StepFrame(s, k);
    var t := Next(s, k);
    forall j: nat | j < |t.pipes| ensures PipeOk(t, j) { StepKeepsPipe(s, k, j); }
    forall j: nat | j < |t.procs| ensures ProcOk(t, j) { StepKeepsProc(s, k, j); }
  }

  // ---------------------------------------------------------------- primes

  predicate IsPrime(x: int) {
    x >= 2 && forall d | 2 <= d < x :: !Divides(d, x)
  }

  /** The primes up to `b`, in increasing order. */
  function PrimesTo(b: int): (r: seq<int>)
    ensures forall x :: x in r <==> IsPrime(x) && x <= b
    decreases if b < 2 then 0 else b
  {
    if b < 2 then [] else if IsPrime(b) then PrimesTo(b - 1) + [b] else PrimesTo(b - 1)
  }

  /** What is left of `xs` once every multiple of a number in `ps` is gone. */
  function Survivors(ps: seq<int>, xs: seq<int>): seq<int> {
    if |ps| == 0 then xs else Sift(ps[|ps| - 1], Survivors(ps[..|ps| - 1], xs))
  }

  ghost predicate Ascending(xs: seq<int>) {
    forall i: nat, j: nat | i < j < |xs| :: xs[i] < xs[j]
  }

  lemma {:induction false} RangeMembers(i: int, n: int)
    ensures Ascending(Range(i, n)) && forall x :: x in Range(i, n) <==> i <= x <= n
    decreases n - i
  {
    if i <= n {
      RangeMembers(i + 1, n);
      var rest := Range(i + 1, n);
      assert forall k: nat | k < |rest| :: rest[k] in rest;
    }
  }

  lemma {:induction false} SiftMembers(p: int, xs: seq<int>)
    requires Ascending(xs)
    ensures Ascending(Sift(p, xs)) && forall x :: x in Sift(p, xs) <==> x in xs && !Divides(p, x)
  {
    if |xs| > 0 {
      SiftMembers(p, xs[1..]);
      assert xs == [xs[0]] + xs[1..];
      var r := Sift(p, xs[1..]);
      forall i: nat | i < |r|
        ensures xs[0] < r[i]
      {
        assert r[i] in r;
      }
    }
  }

  lemma {:induction false} SurvivorMembers(ps: seq<int>, xs: seq<int>)
    requires Ascending(xs)
    ensures Ascending(Survivors(ps, xs))
    ensures forall x :: x in Survivors(ps, xs) <==> x in xs && forall p | p in ps :: !Divides(p, x)
  {
    if |ps| > 0 {
      var rest := ps[..|ps| - 1];
      SurvivorMembers(rest, xs);
      SiftMembers(ps[|ps| - 1], Survivors(rest, xs));
      assert ps == rest + [ps[|ps| - 1]];
    }
  }

  lemma DividesTransitive(p: int, d: int, x: int)
    requires Divides(p, d) && Divides(d, x)
    ensures Divides(p, x)
  {
    var a, b := d / p, x / d;
    assert d == p * a && x == d * b;
    assert x == p * (a * b);
    ProductRemainder(p, a * b);
  }

  lemma SmallMultipleIsZero(p: int, k: int)
    requires if p > 0 then -p < p * k < p else p < p * k < -p
    ensures k == 0
  {
    assert p > 0 && k >= 1 ==> p * k >= p;
    assert p > 0 && k <= -1 ==> p * k <= -p;
    assert p < 0 && k >= 1 ==> p * k <= p;
    assert p < 0 && k <= -1 ==> p * k >= -p;
  }

  lemma ProductRemainder(p: int, c: int)
    requires p != 0
    ensures (p * c) % p == 0
  {
    var q, r := (p * c) / p, (p * c) % p;
    assert r == p * (c - q);
    SmallMultipleIsZero(p, c - q);
  }

  lemma {:induction false} SmallestPrimeDivisor(x: int) returns (p: int)
    requires x >= 2
    ensures IsPrime(p) && p <= x && Divides(p, x)
    decreases x
  {
    if IsPrime(x) {
      p := x;
    } else {
      var d :| 2 <= d < x && Divides(d, x);
      p := SmallestPrimeDivisor(d);
      DividesTransitive(p, d, x);
    }
  }

  /** The primes printed so far are all the primes up to the last of them. */
  function LastOf(out: seq<int>): int {
    if |out| == 0 then 1 else out[|out| - 1]
  }

  predicate PrimesSoFar(n: int, out: seq<int>) {
    out == PrimesTo(LastOf(out)) && LastOf(out) <= n
  }

  /** With every prime up to `b` sieved out, a number is left exactly when it has no prime
      divisor up to `b`; in particular nothing up to `b` is left and every later prime is. */
  lemma SurvivorsOfPrimes(n: int, b: int, x: int)
    requires 1 <= b && 2 <= x <= n
    ensures var s := Survivors(PrimesTo(b), Range(2, n));
            (x <= b ==> x !in s) && (x > b && IsPrime(x) ==> x in s) && (x in s ==> forall p | IsPrime(p) && p <= b :: !Divides(p, x))
  {
    RangeMembers(2, n);
    SurvivorMembers(PrimesTo(b), Range(2, n));
    var p := SmallestPrimeDivisor(x);
    assert x <= b ==> p in PrimesTo(b);
  }

  lemma {:induction false} NoPrimesBetween(b: int, c: int)
    requires 1 <= b <= c && forall x | b < x <= c :: !IsPrime(x)
    ensures PrimesTo(c) == PrimesTo(b)
    decreases c - b
  {
    if b < c {
      NoPrimesBetween(b, c - 1);
    }
  }

  lemma HeadIsLeast(xs: seq<int>)
    requires Ascending(xs) && |xs| > 0
    ensures forall x | x in xs :: xs[0] <= x
  {
  }

  /** The first survivor is the next prime. */
  lemma NextSurvivorIsNextPrime(n: int, out: seq<int>, p: int, rest: seq<int>)
    requires PrimesSoFar(n, out) && 1 <= LastOf(out) && Survivors(out, Range(2, n)) == [p] + rest
    ensures PrimesSoFar(n, out + [p]) && p >= 2
  {
    var b, s := LastOf(out), Survivors(out, Range(2, n));
    RangeMembers(2, n);
    SurvivorMembers(out, Range(2, n));
    assert s[0] == p && p in s;
    HeadIsLeast(s);
    SurvivorsOfPrimes(n, b, p);
    forall x | b < x < p
      ensures !IsPrime(x)
    {
      SurvivorsOfPrimes(n, b, x);
      assert x !in s;
    }
    var q := SmallestPrimeDivisor(p);
    assert q == p;
    NoPrimesBetween(b, p - 1);
    assert PrimesTo(p) == out + [p];
  }

  /** When nothing survives, every prime has been printed. */
  lemma NoSurvivorsMeansDone(n: int, out: seq<int>)
    requires PrimesSoFar(n, out) && 1 <= LastOf(out) && Survivors(out, Range(2, n)) == []
    ensures out == PrimesTo(n)
  {
    forall x | LastOf(out) < x <= n
      ensures !IsPrime(x)
    {
      SurvivorsOfPrimes(n, LastOf(out), x);
    }
    NoPrimesBetween(LastOf(out), n);
  }

  lemma SurvivorsOfMore(ps: seq<int>, p: int, xs: seq<int>)
    ensures Survivors(ps + [p], xs) == Sift(p, Survivors(ps, xs))
  {
    assert (ps + [p])[..|ps|] == ps;
  }

  // ---------------------------------------------------------------- what is printed

  /** The newest process, in state `q`, will receive exactly the numbers no printed prime divides. */
  ghost predicate NewestOk(n: int, out: seq<int>, q: Proc, f: seq<int>) {
    var left := Survivors(out, Range(2, n));
    && PrimesSoFar(n, out) && 1 <= LastOf(out)
    && match q
       case Got(p) => left == [p] + f
       case Printed(p) => left == Sift(p, f)
       case Exited => left == []
       case _ => left == f
  }

  ghost predicate OutOk(s: State)
    requires Sized(s) && |s.pipes| >= 1
  {
    NewestOk(s.n, s.out, s.procs[|s.pipes|], Stream(s, |s.pipes| - 1))
  }

  ghost predicate Inv(s: State) {
    ChainOk(s) && OutOk(s)
  }

  lemma ReadKeepsNewest(n: int, out: seq<int>, f: seq<int>)
    requires NewestOk(n, out, Init, f)
    ensures if f == [] then NewestOk(n, out, Exited, f) else NewestOk(n, out, Got(f[0]), f[1..])
  {
    if f != [] {
      assert f == [f[0]] + f[1..];
    }
  }

  lemma PrintKeepsNewest(n: int, out: seq<int>, p: int, f: seq<int>)
    requires NewestOk(n, out, Got(p), f)
    ensures NewestOk(n, out + [p], Printed(p), f)
  {
    NextSurvivorIsNextPrime(n, out, p, f);
    SurvivorsOfMore(out, p, Range(2, n));
    SiftHead(p, p, f);
  }

  lemma ForkKeepsNewest(n: int, out: seq<int>, p: int, f: seq<int>)
    requires NewestOk(n, out, Printed(p), f)
    ensures NewestOk(n, out, Spawned, Sift(p, f))
  {
  }

  /** What a step of the newest process, number `m`, makes of it. */
  predicate NewestMoves(s: State, t: State, m: nat, f: seq<int>)
    requires Sized(s) && Sized(t) && m == |s.pipes| <= |t.pipes| && m > 0
  {
    match s.procs[m]
    case Born => |t.pipes| == m && t.procs[m] == Init && t.out == s.out
    case Spawned => |t.pipes| == m && t.procs[m] == Heir && t.out == s.out
    case Heir => |t.pipes| == m && t.procs[m] == Init && t.out == s.out
    case Init =>
      |t.pipes| == m && t.out == s.out &&
      if s.pipes[m - 1].data != [] then f != [] && t.procs[m] == Got(f[0]) else f == [] && t.procs[m] == Exited
    case Got(p) => |t.pipes| == m && t.procs[m] == Printed(p) && t.out == s.out + [p]
    case Printed(p) =>
      |t.pipes| == m + 1 && t.procs[m] == Forked(p) && t.procs[m + 1] == Spawned && t.pipes[m].data == [] && t.out == s.out
    case _ => false
  }

  lemma NewestStep(s: State)
    requires ChainOk(s) && Enabled(s, |s.pipes|)
    ensures Sized(Next(s, |s.pipes|)) && |s.pipes| <= |Next(s, |s.pipes|).pipes|
    ensures NewestMoves(s, Next(s, |s.pipes|), |s.pipes|, Stream(s, |s.pipes| - 1))
  {
    var m := |s.pipes|;
    assert ProcOk(s, m);
    if s.procs[m].Init? {
      if s.pipes[m - 1].data == [] {
        EndOfInput(s, m);
      } else {
        assert Stream(s, m - 1)[0] == s.pipes[m - 1].data[0];
      }
    }
    hide Coming, PipeOk;
  }

  lemma NewestForked(t: State, m: nat)
    requires Sized(t) && 0 < m < |t.pipes| && t.procs[m].Forked? && t.pipes[m].data == []
    ensures Stream(t, m) == Sift(t.procs[m].p, Stream(t, m - 1))
  {
  }

  lemma ForkKeepsOut(s: State)
    requires Inv(s) && s.procs[|s.pipes|].Printed?
    ensures Enabled(s, |s.pipes|) && Sized(Next(s, |s.pipes|)) && |Next(s, |s.pipes|).pipes| >= 1 && OutOk(Next(s, |s.pipes|))
  {
    hide NewestOk, Stream, Next, PipeOk;
    var m, p := |s.pipes|, s.procs[|s.pipes|].p;
    NewestStep(s);
    StepFrame(s, m);
    StepKeepsStreams(s, m, m - 1);
    ForkKeepsNewest(s.n, s.out, p, Stream(s, m - 1));
    NewestForked(Next(s, m), m);
  }

  lemma NewestKeepsOut(s: State)
    requires Inv(s) && Enabled(s, |s.pipes|)
    ensures Sized(Next(s, |s.pipes|)) && |Next(s, |s.pipes|).pipes| >= 1 && OutOk(Next(s, |s.pipes|))
  {
    hide NewestOk, Stream, Next, PipeOk, Enabled;
    var m := |s.pipes|;
    var f := Stream(s, m - 1);
    if s.procs[m].Printed? {
      ForkKeepsOut(s);
    } else {
      NewestStep(s);
      StepFrame(s, m);
      StepKeepsStreams(s, m, m - 1);
      match s.procs[m]
      case Born => BornKeepsNewest(s.n, s.out, Born, f);
      case Spawned => BornKeepsNewest(s.n, s.out, Spawned, f);
      case Heir => BornKeepsNewest(s.n, s.out, Heir, f);
      case Init => ReadKeepsNewest(s.n, s.out, f);
      case Got(p) => PrintKeepsNewest(s.n, s.out, p, f);
    }
  }

  lemma OthersKeepOut(s: State, k: nat)
    requires Inv(s) && Enabled(s, k) && k < |s.pipes|
    ensures Sized(Next(s, k)) && |Next(s, k).pipes| >= 1 && OutOk(Next(s, k))
  {
    hide NewestOk, Stream, Next, Enabled, PipeOk, Coming;
    var m := |s.pipes|;
    assert ProcOk(s, k);
    StepFrame(s, k);
    StepKeepsStreams(s, k, m - 1);
    OthersPrintNothing(s, k);
  }

  lemma NextKeepsOut(s: State, k: nat)
    requires Inv(s) && Enabled(s, k)
    ensures Sized(Next(s, k)) && |Next(s, k).pipes| >= 1 && OutOk(Next(s, k))
  {
    hide OutOk, Stream, Next;
    if k == |s.pipes| {
      NewestKeepsOut(s);
    } else {
      OthersKeepOut(s, k);
    }
  }

  lemma BornKeepsNewest(n: int, out: seq<int>, q: Proc, f: seq<int>)
    requires NewestOk(n, out, q, f) && (q.Born? || q.Spawned? || q.Heir?)
    ensures NewestOk(n, out, Init, f) && NewestOk(n, out, Heir, f)
  {
  }

  lemma OthersPrintNothing(s: State, k: nat)
    requires Sized(s) && Enabled(s, k) && !s.procs[k].Got?
    ensures Next(s, k).out == s.out
  {
  }

  lemma NextKeepsInv(s: State, k: nat)
    requires Inv(s) && Enabled(s, k)
    ensures Inv(Next(s, k))
  {
    NextKeepsChain(s, k);
    NextKeepsOut(s, k);
  }

  /** When the last process has exited, the primes up to n are on the output. */
  lemma DoneMeansPrimes(s: State)
    requires Inv(s) && s.procs[|s.pipes|].Exited?
    ensures s.out == PrimesTo(s.n)
  {
    NoSurvivorsMeansDone(s.n, s.out);
  }

  /** And the command itself returns only after every process has exited. */
  lemma {:induction false} ExitIsLast(s: State, k: nat)
    requires Inv(s) && s.procs[0].Exited? && k < |s.procs|
    ensures s.procs[k].Exited?
  {
    if k > 0 {
      ExitIsLast(s, k - 1);
      assert ProcOk(s, k - 1);
    }
  }

  // ---------------------------------------------------------------- pipes are never broken

  predicate AboutToWrite(s: State, k: nat)
    requires Sized(s)
  {
    k < |s.pipes| && ((s.procs[k].Src? && s.procs[k].i <= s.n) || s.procs[k].Holding?)
  }

  /** Nobody writes to a pipe that has lost its reader. */
  lemma WriteHasReader(s: State, k: nat)
    requires ChainOk(s) && AboutToWrite(s, k)
    ensures s.pipes[k].readers > 0 && !Finished(s.procs[k + 1])
  {
    assert PipeOk(s, k) && ProcOk(s, k + 1);
    assert Stream(s, k) != [];
  }

  // ---------------------------------------------------------------- no deadlock

  ghost predicate AllExited(s: State) {
    forall k: nat | k < |s.procs| :: s.procs[k].Exited?
  }

  /** A process blocked on a full pipe waits for someone further down who is not blocked. */
  lemma {:induction false} FullPipeMoves(s: State, k: nat) returns (j: nat)
    requires ChainOk(s) && k < |s.pipes| && s.pipes[k].data != []
    ensures Enabled(s, j)
    decreases |s.pipes| - k
  {
    assert ProcOk(s, k + 1) && PipeOk(s, k);
    assert Stream(s, k) != [];
    if Enabled(s, k + 1) {
      j := k + 1;
    } else {
      assert s.procs[k + 1].Holding?;
      j := FullPipeMoves(s, k + 1);
    }
  }

  /** Why a process that is neither waiting nor gone cannot move. */
  lemma BlockedReason(s: State, k: nat)
    requires ChainOk(s) && k < |s.procs| && !Enabled(s, k) && !s.procs[k].Waiting? && !s.procs[k].Exited?
    ensures if s.procs[k].Init? || s.procs[k].Filter? then k > 0 && s.pipes[k - 1].writers > 0
            else k < |s.pipes| && s.pipes[k].data != []
  {
    assert ProcOk(s, k);
    hide Stream, Coming, PipeOk;
  }

  /** From the first process that is neither waiting nor gone, or from the end of the chain of
      waiting ones, somebody can move. */
  lemma {:induction false} SomeoneMoves(s: State, k: nat) returns (j: nat)
    requires ChainOk(s) && k < |s.procs| && !AllExited(s)
    requires forall i: nat | i < k :: s.procs[i].Waiting? || s.procs[i].Exited?
    ensures Enabled(s, j)
    decreases |s.procs| - k
  {
    assert k > 0 ==> PipeOk(s, k - 1);
    if Enabled(s, k) {
      j := k;
    } else if s.procs[k].Waiting? || s.procs[k].Exited? {
      assert ProcOk(s, k);
      if k + 1 < |s.procs| {
        j := SomeoneMoves(s, k + 1);
      } else {
        j := LastWaiting(s, k);
      }
    } else {
      BlockedReason(s, k);
      if s.procs[k].Init? || s.procs[k].Filter? {
        assert false;
      } else {
        j := FullPipeMoves(s, k);
      }
    }
  }

  /** All waiting or gone: the last one waiting has a child that is gone. */
  lemma {:induction false} LastWaiting(s: State, k: nat) returns (j: nat)
    requires ChainOk(s) && k < |s.procs| && !AllExited(s)
    requires forall i: nat | i <= k :: s.procs[i].Waiting? || s.procs[i].Exited?
    requires forall i: nat | k <= i < |s.procs| :: s.procs[i].Exited?
    ensures Enabled(s, j)
  {
    assert k > 0;
    assert ProcOk(s, k - 1);
    if s.procs[k - 1].Waiting? {
      j := k - 1;
    } else {
      j := LastWaiting(s, k - 1);
    }
  }

  /** MAIN RESULT: a state the sieve can reach is never stuck. */
  lemma NoDeadlock(s: State) returns (j: nat)
    requires ChainOk(s) && !AllExited(s)
    ensures Enabled(s, j)
  {
    j := SomeoneMoves(s, 0);
  }

  // ---------------------------------------------------------------- termination

  /** System calls of a stage from its first read of the numbers after `p` to its exit. */
  function FilterCalls(p: int, f: seq<int>): nat {
    |f| + |Sift(p, f)| + 4
  }

  /** System calls of a process about to read its first number from `f`, and of every process
      that comes after it. */
  function InitCalls(f: seq<int>): nat
    decreases |f|
  {
    if |f| == 0 then 1
    else 6 + FilterCalls(f[0], f[1..]) + InitCalls(Sift(f[0], f[1..]))
  }

  /** System calls still to come from process `q`, with `f` still to read; the newest process
      answers for the ones it will create. */
  function Calls(n: int, q: Proc, f: seq<int>): nat {
    match q
    case SrcForked => 1 + |Range(2, n)| + 2
    case Src(i) => |Range(i, n)| + 2
    case Born => 1 + InitCalls(f)
    case Spawned => 2 + InitCalls(f)
    case Heir => 1 + InitCalls(f)
    case Init => InitCalls(f)
    case Got(p) => 5 + FilterCalls(p, f) + InitCalls(Sift(p, f))
    case Printed(p) => 4 + FilterCalls(p, f) + InitCalls(Sift(p, f))
    case Forked(p) => 1 + FilterCalls(p, f)
    case Filter(p) => FilterCalls(p, f)
    case Holding(p, x) => 1 + FilterCalls(p, f)
    case Eof(p) => 3
    case Drained(p) => 2
    case Waiting => 1
    case Exited => 0
  }

  /** System calls still to come from the first `k` processes. */
  function CallsBelow(s: State, k: nat): nat
    requires Sized(s) && k <= |s.procs|
  {
    if k == 0 then 0 else CallsBelow(s, k - 1) + Calls(s.n, s.procs[k - 1], Input(s, k - 1))
  }

  function CallsLeft(s: State): nat
    requires Sized(s)
  {
    CallsBelow(s, |s.procs|)
  }

  /** One system call is one call fewer for the process that makes it. */
  lemma OwnCalls(s: State, k: nat, input: seq<int>)
    requires Sized(s) && Enabled(s, k) && KindOk(s, k)
    requires TakesOne(s, k) ==> |input| > 0 && input[0] == s.pipes[k - 1].data[0]
    requires (s.procs[k].Filter? || s.procs[k].Init?) && !TakesOne(s, k) ==> input == []
    ensures k < |Next(s, k).procs|
    ensures var q, r, f := s.procs[k], Next(s, k).procs[k], if TakesOne(s, k) then input[1..] else input;
            Calls(s.n, r, f) + (if q.Printed? then Calls(s.n, Spawned, Sift(q.p, f)) else 0) == Calls(s.n, q, input) - 1
  {
    var q := s.procs[k];
    if q.Filter? && TakesOne(s, k) {
      assert input == [input[0]] + input[1..];
      SiftHead(q.p, input[0], input[1..]);
    }
    hide KindOk;
  }

  lemma {:induction false} CallsBelowStep(s: State, k: nat, j: nat)
    requires ChainOk(s) && Enabled(s, k) && j <= |s.procs| && Sized(Next(s, k)) && j <= |Next(s, k).procs|
    requires !s.procs[k].Printed? || j <= k
    ensures CallsBelow(Next(s, k), j) == CallsBelow(s, j) - if j > k then 1 else 0
  {
    hide Next, Calls, Stream, Enabled;
    StepFrame(s, k);
    if j > 0 {
      CallsBelowStep(s, k, j - 1);
      InputAfterStep(s, k, j - 1);
      if j - 1 == k {
        InputIsAhead(s, k);
        OwnCalls(s, k, Input(s, k));
      }
    }
  }

  lemma InputAfterStep(s: State, k: nat, j: nat)
    requires ChainOk(s) && Enabled(s, k) && j < |s.procs|
    ensures Sized(Next(s, k)) && j < |Next(s, k).procs|
    ensures Input(Next(s, k), j) == if j == k && TakesOne(s, k) then Input(s, j)[1..] else Input(s, j)
  {
    hide Next, Stream;
    StepFrame(s, k);
    if j > 0 {
      StepKeepsStreams(s, k, j - 1);
    }
  }

  /** The two processes a fork leaves at the end of the chain, and what they will read. */
  lemma ForkShape(s: State)
    requires ChainOk(s) && s.procs[|s.pipes|].Printed?
    ensures Enabled(s, |s.pipes|) && Sized(Next(s, |s.pipes|))
    ensures var m, t, p := |s.pipes|, Next(s, |s.pipes|), s.procs[|s.pipes|].p;
            && |t.procs| == m + 2 && t.procs[m] == Forked(p) && t.procs[m + 1] == Spawned && t.n == s.n
            && Input(t, m) == Input(s, m) && Input(t, m + 1) == Sift(p, Input(s, m))
  {
    hide Calls, Stream;
    var m := |s.pipes|;
    NewestStep(s);
    StepFrame(s, m);
    InputAfterStep(s, m, m);
    NewestForked(Next(s, m), m);
  }

  lemma ForkSpendsOne(s: State)
    requires ChainOk(s) && s.procs[|s.pipes|].Printed?
    ensures Enabled(s, |s.pipes|) && Sized(Next(s, |s.pipes|)) && CallsLeft(Next(s, |s.pipes|)) == CallsLeft(s) - 1
  {
    hide Next, Stream, Input;
    var m := |s.pipes|;
    ForkShape(s);
    CallsBelowStep(s, m, m);
    var t := Next(s, m);
    assert CallsBelow(t, m + 1) == CallsBelow(t, m) + Calls(t.n, t.procs[m], Input(t, m));
  }

  /** MAIN RESULT: every system call of every process brings the end one call nearer, so a run
      has exactly as many steps, whatever the order, as its start has calls left. */
  lemma StepSpendsOne(s: State, k: nat)
    requires ChainOk(s) && Enabled(s, k)
    ensures Sized(Next(s, k)) && CallsLeft(Next(s, k)) == CallsLeft(s) - 1
  {
    hide Next, Calls, Stream;
    StepFrame(s, k);
    if s.procs[k].Printed? {
      ForkSpendsOne(s);
    } else {
      CallsBelowStep(s, k, |s.procs|);
    }
  }

  // ---------------------------------------------------------------- runs

  /** The largest int; the counting loop overflows when it is asked to count that far. */
  const INT_MAX: int := 0x7fff_ffff

  /** After main has forked its first child. */
  predicate Started(s: State) {
    2 <= s.n < INT_MAX && s.cap >= 1 && s.procs == [SrcForked, Born] && s.pipes == [Pipe([], 2, 2)] && s.out == []
  }

  lemma StartedIsOk(s: State)
    requires Started(s)
    ensures Inv(s)
  {
    assert Stream(s, 0) == Range(2, s.n);
    assert PipeOk(s, 0) && ProcOk(s, 0) && ProcOk(s, 1);
  }

  function Go(s: State, k: nat): (t: State)
    requires Inv(s) && Enabled(s, k)
    ensures Inv(t)
  {
    NextKeepsInv(s, k);
    Next(s, k)
  }

  /** `order` says which process makes each system call. */
  ghost predicate IsRun(s: State, order: seq<nat>)
    requires Inv(s)
    decreases |order|
  {
    |order| == 0 || (Enabled(s, order[0]) && IsRun(Go(s, order[0]), order[1..]))
  }

  function Final(s: State, order: seq<nat>): (t: State)
    requires Inv(s) && IsRun(s, order)
    ensures Inv(t)
    decreases |order|
  {
    if |order| == 0 then s else Final(Go(s, order[0]), order[1..])
  }

  lemma {:induction false} RunSpends(s: State, order: seq<nat>)
    requires Inv(s) && IsRun(s, order)
    ensures CallsLeft(Final(s, order)) == CallsLeft(s) - |order| && Final(s, order).n == s.n
    decreases |order|
  {
    if |order| > 0 {
      StepSpendsOne(s, order[0]);
      StepFrame(s, order[0]);
      RunSpends(Go(s, order[0]), order[1..]);
    }
  }

  /** MAIN RESULT, for whole runs: whatever the interleaving and the capacity of the pipes, a run
      never exceeds the number of calls fixed at the start, can always be continued until that
      number is reached, and then all processes have exited and exactly the primes up to n have
      been printed, in increasing order. */
  lemma EveryRunPrintsThePrimes(s: State, order: seq<nat>)
    requires Started(s)
    ensures Inv(s)
    ensures IsRun(s, order) ==> |order| <= CallsLeft(s)
    ensures IsRun(s, order) && |order| < CallsLeft(s) ==> exists k: nat :: Enabled(Final(s, order), k)
    ensures IsRun(s, order) && |order| == CallsLeft(s) ==> AllExited(Final(s, order)) && Final(s, order).out == PrimesTo(s.n)
  {
    StartedIsOk(s);
    if IsRun(s, order) {
      RunSpends(s, order);
      var t := Final(s, order);
      if AllExited(t) {
        ExitedHasNoCalls(t, |t.procs|);
        DoneMeansPrimes(t);
      } else {
        var k := NoDeadlock(t);
        StepSpendsOne(t, k);
      }
    }
  }

  lemma {:induction false} ExitedHasNoCalls(s: State, k: nat)
    requires Sized(s) && AllExited(s) && k <= |s.procs|
    ensures CallsBelow(s, k) == 0
  {
    if k > 0 {
      ExitedHasNoCalls(s, k - 1);
    }
  }
}
