/** What the malloc library's chains of regions mean: blocks cut into regions that tile them.

    A region is a size and a flag; where it lies follows from the regions before it, so tiling is
    one equation per block.  `Headed` says that the headers in memory, with their `next` and
    `prev` pointers, are those of the tiling. */
module Regions {

  const HEADER: nat := 32          // sizeof(region_header_t)
  const BLOCK_HEADER: nat := 24    // sizeof(block_header_t)
  const MIN_REGION: nat := 64

  datatype Region = Region(size: nat, free: bool)

  /** A block of the list; `base` is the address of its header. */
  datatype Block = Block(base: nat, size: nat, regs: seq<Region>)

  /** A region header in memory; 0 is NULL. */
  datatype Header = Header(next: nat, prev: nat, size: nat, free: bool)

  /** A live allocation: the pointer handed out and the bytes behind it. */
  datatype Alloc = Alloc(ptr: nat, size: nat)

  // ---------------------------------------------------------------- geometry

  function Total(regs: seq<Region>): nat {
    if |regs| == 0 then 0 else Total(regs[..|regs| - 1]) + HEADER + regs[|regs| - 1].size
  }

  /** Address of the header of region `i`. */
  function Addr(at: nat, regs: seq<Region>, i: nat): nat {
    if i <= |regs| then at + Total(regs[..i]) else 0
  }

  lemma {:induction false} TotalConcat(a: seq<Region>, b: seq<Region>)
    ensures Total(a + b) == Total(a) + Total(b)
    decreases |b|
  {
    if |b| == 0 {
      assert a + b == a;
    } else {
      var c := b[..|b| - 1];
      assert (a + b)[..|a + b| - 1] == a + c;
      TotalConcat(a, c);
    }
  }

  lemma TakeOfConcat<T>(a: seq<T>, b: seq<T>, i: nat)
    requires i <= |a| + |b|
    ensures (a + b)[..i] == if i <= |a| then a[..i] else a + b[..i - |a|]
  {
  }

  /** Regions keep their addresses when something behind them changes, and when something before
      them changes that keeps its total length. */
  lemma AddrIn(at: nat, a: seq<Region>, b: seq<Region>, i: nat)
    requires i <= |a| + |b|
    ensures Addr(at, a + b, i) == if i <= |a| then Addr(at, a, i) else Addr(at + Total(a), b, i - |a|)
  {
    hide Total;
    TakeOfConcat(a, b, i);
    if i > |a| {
      TotalConcat(a, b[..i - |a|]);
    }
  }

  lemma AddrNext(at: nat, regs: seq<Region>, i: nat)
    requires i < |regs|
    ensures Addr(at, regs, i + 1) == Addr(at, regs, i) + HEADER + regs[i].size
  {
    assert regs[..i + 1][..i] == regs[..i];
  }

  lemma {:induction false} AddrMonotone(at: nat, regs: seq<Region>, i: nat, j: nat)
    requires i < j <= |regs|
    ensures Addr(at, regs, j) >= Addr(at, regs, i) + HEADER + regs[i].size
    ensures at <= Addr(at, regs, i) && Addr(at, regs, j) <= Addr(at, regs, |regs|) == at + Total(regs)
    decreases j
  {
    AddrNext(at, regs, j - 1);
    if i < j - 1 {
      AddrMonotone(at, regs, i, j - 1);
    }
    AddrBelowEnd(at, regs, j);
  }

  lemma {:induction false} AddrBelowEnd(at: nat, regs: seq<Region>, j: nat)
    requires j <= |regs|
    ensures Addr(at, regs, j) <= Addr(at, regs, |regs|) == at + Total(regs)
    decreases |regs| - j
  {
    assert regs[..|regs|] == regs;
    if j < |regs| {
      AddrNext(at, regs, j);
      AddrBelowEnd(at, regs, j + 1);
    }
  }

  // ---------------------------------------------------------------- headers

  /** What the header of region `i` must say. */
  function HeaderOf(at: nat, regs: seq<Region>, i: nat): Header
    requires i < |regs|
  {
    Header(if i + 1 < |regs| then Addr(at, regs, i + 1) else 0, if i > 0 then Addr(at, regs, i - 1) else 0,
           regs[i].size, regs[i].free)
  }

  ghost predicate HeadedAt(hs: map<nat, Header>, at: nat, regs: seq<Region>, i: nat)
    requires i < |regs|
  {
    Addr(at, regs, i) in hs && hs[Addr(at, regs, i)] == HeaderOf(at, regs, i)
  }

  /** `next` and `prev` are mutual inverses all along the chain, sizes reach the next header. */
  ghost predicate Headed(hs: map<nat, Header>, at: nat, regs: seq<Region>) {
    forall i: nat | i < |regs| :: HeadedAt(hs, at, regs, i)
  }

  // ---------------------------------------------------------------- replacing regions

  lemma AtZero(at: nat, regs: seq<Region>)
    ensures Addr(at, regs, 0) == at
  {
  }

  lemma AtEnd(at: nat, regs: seq<Region>)
    ensures Addr(at, regs, |regs|) == at + Total(regs)
  {
    assert regs[..|regs|] == regs;
  }

  lemma AddrAfter(at: nat, a: seq<Region>, b: seq<Region>, k: nat)
    requires k <= |b|
    ensures Addr(at, a + b, |a| + k) == Addr(at + Total(a), b, k)
  {
    hide Total, Addr;
    AddrIn(at, a, b, |a| + k);
    AtZero(at + Total(a), b);
    AtEnd(at, a);
  }

  /** Replacing some regions by others of the same total length moves nothing else. */
  lemma ReplaceMiddle(at: nat, pre: seq<Region>, was: seq<Region>, mid: seq<Region>, post: seq<Region>, k: nat)
    requires Total(mid) == Total(was) && k <= |post|
    ensures Total(pre + mid + post) == Total(pre + was + post)
    ensures Addr(at, pre + mid + post, |pre| + |mid| + k) == Addr(at, pre + was + post, |pre| + |was| + k)
  {
    hide Total, Addr;
    var a, b := pre + mid, pre + was;
    TotalConcat(pre, mid);
    TotalConcat(pre, was);
    TotalConcat(a, post);
    TotalConcat(b, post);
    AddrAfter(at, a, post, k);
    AddrAfter(at, b, post, k);
  }

  lemma ReplaceBefore(at: nat, pre: seq<Region>, mid: seq<Region>, post: seq<Region>, k: nat)
    requires k <= |pre|
    ensures Addr(at, pre + mid + post, k) == Addr(at, pre, k)
  {
    hide Total, Addr;
    AddrIn(at, pre + mid, post, k);
    AddrIn(at, pre, mid, k);
  }

  /** `mid` in place of regions `i` to `j - 1`. */
  function Splice(regs: seq<Region>, i: nat, j: nat, mid: seq<Region>): seq<Region>
    requires i <= j <= |regs|
  {
    regs[..i] + mid + regs[j..]
  }

  lemma SpliceAddr(at: nat, regs: seq<Region>, i: nat, j: nat, mid: seq<Region>, k: nat)
    requires i <= j <= |regs| && Total(mid) == Total(regs[i..j]) && k <= |regs| - (j - i) + |mid|
    ensures Total(Splice(regs, i, j, mid)) == Total(regs)
    ensures k <= i ==> Addr(at, Splice(regs, i, j, mid), k) == Addr(at, regs, k)
    ensures k >= i + |mid| ==> Addr(at, Splice(regs, i, j, mid), k) == Addr(at, regs, k - |mid| + (j - i))
  {
    hide Total, Addr;
    var pre, was, post := regs[..i], regs[i..j], regs[j..];
    assert regs == pre + was + post;
    if k <= i {
      ReplaceBefore(at, pre, mid, post, k);
      ReplaceBefore(at, pre, was, post, k);
      ReplaceMiddle(at, pre, was, mid, post, 0);
    } else {
      ReplaceMiddle(at, pre, was, mid, post, if k >= i + |mid| then k - i - |mid| else 0);
    }
  }

  lemma OneTwoTotals(a: Region, b: Region)
    ensures Total([a]) == HEADER + a.size && Total([a, b]) == 2 * HEADER + a.size + b.size
  {
    assert [a, b][..1] == [a] && [a][..0] == [] && [a, b] == [a] + [b];
  }

  lemma SliceTotals(regs: seq<Region>, i: nat)
    requires i < |regs|
    ensures Total(regs[i..i + 1]) == HEADER + regs[i].size
    ensures i + 1 < |regs| ==> Total(regs[i..i + 2]) == 2 * HEADER + regs[i].size + regs[i + 1].size
  {
    assert regs[i..i + 1] == [regs[i]];
    OneTwoTotals(regs[i], regs[i]);
    if i + 1 < |regs| {
      assert regs[i..i + 2] == [regs[i], regs[i + 1]];
      OneTwoTotals(regs[i], regs[i + 1]);
    }
  }

  // ---------------------------------------------------------------- cutting and joining

  predicate CanCut(regs: seq<Region>, i: nat, size: nat) {
    i < |regs| && size + HEADER <= regs[i].size
  }

  /** split_region. */
  function Cut(regs: seq<Region>, i: nat, size: nat): seq<Region>
    requires CanCut(regs, i, size)
  {
    Splice(regs, i, i + 1, [Region(size, regs[i].free), Region(regs[i].size - size - HEADER, true)])
  }

  /** coalesce_region_with_its_next. */
  function Join(regs: seq<Region>, i: nat): seq<Region>
    requires i + 1 < |regs|
  {
    Splice(regs, i, i + 2, [Region(regs[i].size + regs[i + 1].size + HEADER, regs[i].free)])
  }

  /** split_and_coalesce_next_regions: the border with the next region moves down. */
  function Shift(regs: seq<Region>, i: nat, size: nat): seq<Region>
    requires i + 1 < |regs| && size <= regs[i].size
  {
    Splice(regs, i, i + 2, [Region(size, regs[i].free), Region(regs[i + 1].size + (regs[i].size - size), true)])
  }

  function SetFree(regs: seq<Region>, i: nat, free: bool): seq<Region>
    requires i < |regs|
  {
    Splice(regs, i, i + 1, [Region(regs[i].size, free)])
  }

  lemma CutAddr(at: nat, regs: seq<Region>, i: nat, size: nat, k: nat)
    requires CanCut(regs, i, size) && k <= |regs| + 1
    ensures Total(Cut(regs, i, size)) == Total(regs)
    ensures Addr(at, Cut(regs, i, size), k) ==
              if k <= i then Addr(at, regs, k) else if k == i + 1 then Addr(at, regs, i) + HEADER + size else Addr(at, regs, k - 1)
  {
    hide Addr, Total;
    var mid := [Region(size, regs[i].free), Region(regs[i].size - size - HEADER, true)];
    OneTwoTotals(mid[0], mid[1]);
    SliceTotals(regs, i);
    SpliceAddr(at, regs, i, i + 1, mid, k);
    SpliceAddr(at, regs, i, i + 1, mid, i);
    AddrNext(at, Cut(regs, i, size), i);
  }

  lemma JoinAddr(at: nat, regs: seq<Region>, i: nat, k: nat)
    requires i + 1 < |regs| && k < |regs|
    ensures Total(Join(regs, i)) == Total(regs)
    ensures Addr(at, Join(regs, i), k) == if k <= i then Addr(at, regs, k) else Addr(at, regs, k + 1)
  {
    hide Addr, Total;
    var mid := [Region(regs[i].size + regs[i + 1].size + HEADER, regs[i].free)];
    OneTwoTotals(mid[0], mid[0]);
    SliceTotals(regs, i);
    SpliceAddr(at, regs, i, i + 2, mid, k);
  }

  lemma ShiftAddr(at: nat, regs: seq<Region>, i: nat, size: nat, k: nat)
    requires i + 1 < |regs| && size <= regs[i].size && k <= |regs|
    ensures Total(Shift(regs, i, size)) == Total(regs)
    ensures Addr(at, Shift(regs, i, size), k) == if k == i + 1 then Addr(at, regs, i) + HEADER + size else Addr(at, regs, k)
  {
    hide Addr, Total;
    var mid := [Region(size, regs[i].free), Region(regs[i + 1].size + (regs[i].size - size), true)];
    OneTwoTotals(mid[0], mid[1]);
    SliceTotals(regs, i);
    SpliceAddr(at, regs, i, i + 2, mid, k);
    SpliceAddr(at, regs, i, i + 2, mid, i);
    AddrNext(at, Shift(regs, i, size), i);
  }

  lemma SetFreeAddr(at: nat, regs: seq<Region>, i: nat, free: bool, k: nat)
    requires i < |regs| && k <= |regs|
    ensures Total(SetFree(regs, i, free)) == Total(regs)
    ensures Addr(at, SetFree(regs, i, free), k) == Addr(at, regs, k)
  {
    hide Addr, Total;
    var mid := [Region(regs[i].size, free)];
    OneTwoTotals(mid[0], mid[0]);
    SliceTotals(regs, i);
    SpliceAddr(at, regs, i, i + 1, mid, k);
  }

  // ---------------------------------------------------------------- the same on headers

  /** What split_region writes as it stands. */
  function LiteralCut(hs: map<nat, Header>, r: nat, size: nat): map<nat, Header>
    requires r in hs && size + HEADER <= hs[r].size
  {
    hs[r + HEADER + size := Header(hs[r].next, r, hs[r].size - size - HEADER, true)]
      [r := Header(r + HEADER + size, hs[r].prev, size, hs[r].free)]
  }

  function SetPrev(hs: map<nat, Header>, r: nat, prev: nat): map<nat, Header> {
    if r in hs then hs[r := Header(hs[r].next, prev, hs[r].size, hs[r].free)] else hs
  }

  /** The same with the assignment the list needs: the region after the new one points back to it. */
  function CutHeaders(hs: map<nat, Header>, r: nat, size: nat): map<nat, Header>
    requires r in hs && size + HEADER <= hs[r].size
  {
    if hs[r].next == 0 then LiteralCut(hs, r, size) else SetPrev(LiteralCut(hs, r, size), hs[r].next, r + HEADER + size)
  }

  function JoinHeaders(hs: map<nat, Header>, r: nat): map<nat, Header>
    requires r in hs && hs[r].next in hs
  {
    var n := hs[hs[r].next];
    var joined := hs[r := Header(n.next, hs[r].prev, hs[r].size + n.size + HEADER, hs[r].free)];
    if n.next == 0 then joined else SetPrev(joined, n.next, r)
  }

  function LiteralShift(hs: map<nat, Header>, r: nat, size: nat): map<nat, Header>
    requires r in hs && hs[r].next in hs && size <= hs[r].size
  {
    var n := hs[hs[r].next];
    hs[r + HEADER + size := Header(n.next, n.prev, n.size + (hs[r].size - size), true)]
      [r := Header(r + HEADER + size, hs[r].prev, size, hs[r].free)]
  }

  function ShiftHeaders(hs: map<nat, Header>, r: nat, size: nat): map<nat, Header>
    requires r in hs && hs[r].next in hs && size <= hs[r].size
  {
    var n := hs[hs[r].next];
    if n.next == 0 then LiteralShift(hs, r, size) else SetPrev(LiteralShift(hs, r, size), n.next, r + HEADER + size)
  }

  /** Nothing else in memory is touched. */
  ghost predicate SameOutside(hs: map<nat, Header>, gs: map<nat, Header>, at: nat, end: nat) {
    forall a: nat | !(at <= a < end) :: (a in gs <==> a in hs) && (a in hs ==> gs[a] == hs[a])
  }


  /** Headers of one block lie at different places, all inside it. */
  lemma AddrOrder(at: nat, regs: seq<Region>, i: nat, j: nat)
    requires i < |regs| && j <= |regs|
    ensures at <= Addr(at, regs, i) && Addr(at, regs, i) + HEADER + regs[i].size <= at + Total(regs)
    ensures i < j ==> Addr(at, regs, i) + HEADER + regs[i].size <= Addr(at, regs, j)
    ensures j < i ==> Addr(at, regs, j) + HEADER + regs[j].size <= Addr(at, regs, i)
  {
    AddrMonotone(at, regs, i, |regs|);
    if i < j {
      AddrMonotone(at, regs, i, j);
    } else if j < i {
      AddrMonotone(at, regs, j, i);
    }
  }

  /** A pointer of the chain is null only at its ends. */
  lemma HeaderFacts(hs: map<nat, Header>, at: nat, regs: seq<Region>, i: nat)
    requires Headed(hs, at, regs) && i < |regs| && at > 0
    ensures Addr(at, regs, i) in hs && hs[Addr(at, regs, i)] == HeaderOf(at, regs, i) && Addr(at, regs, i) > 0
    ensures hs[Addr(at, regs, i)].next != 0 <==> i + 1 < |regs|
    ensures hs[Addr(at, regs, i)].prev != 0 <==> i > 0
  {
    assert HeadedAt(hs, at, regs, i);
    AddrOrder(at, regs, i, i);
    if i > 0 {
      AddrOrder(at, regs, i - 1, i);
    }
  }

  lemma HeadedThroughout(hs: map<nat, Header>, at: nat, regs: seq<Region>)
    requires forall k: nat | k < |regs| :: HeadedAt(hs, at, regs, k)
    ensures Headed(hs, at, regs)
  {
  }

  lemma CutHeadedAt(hs: map<nat, Header>, at: nat, regs: seq<Region>, i: nat, size: nat, k: nat)
    requires Headed(hs, at, regs) && CanCut(regs, i, size) && at > 0 && k <= |regs|
    requires Addr(at, regs, i) in hs && hs[Addr(at, regs, i)] == HeaderOf(at, regs, i)
    ensures HeadedAt(CutHeaders(hs, Addr(at, regs, i), size), at, Cut(regs, i, size), k)
  {
    hide Addr, Headed;
    CutAddr(at, regs, i, size, k);
    CutAddr(at, regs, i, size, k + 1);
    if k > 0 {
      CutAddr(at, regs, i, size, k - 1);
    }
    HeaderFacts(hs, at, regs, i);
    var j := if k <= i then k else k - 1;
    HeaderFacts(hs, at, regs, j);
    AddrOrder(at, regs, i, j);
    AddrOrder(at, regs, i, i + 1);
    AddrOrder(at, regs, j, i + 1);
  }

  lemma CutKeepsHeaded(hs: map<nat, Header>, at: nat, regs: seq<Region>, i: nat, size: nat)
    requires Headed(hs, at, regs) && CanCut(regs, i, size) && at > 0
    ensures Addr(at, regs, i) in hs && hs[Addr(at, regs, i)] == HeaderOf(at, regs, i)
    ensures Headed(CutHeaders(hs, Addr(at, regs, i), size), at, Cut(regs, i, size))
    ensures SameOutside(hs, CutHeaders(hs, Addr(at, regs, i), size), at, at + Total(regs))
  {
    hide Addr, Headed;
    HeaderFacts(hs, at, regs, i);
    forall k: nat | k < |Cut(regs, i, size)|
      ensures HeadedAt(CutHeaders(hs, Addr(at, regs, i), size), at, Cut(regs, i, size), k)
    {
      CutHeadedAt(hs, at, regs, i, size, k);
    }
    HeadedThroughout(CutHeaders(hs, Addr(at, regs, i), size), at, Cut(regs, i, size));
    AddrOrder(at, regs, i, i);
    if i + 1 < |regs| {
      AddrOrder(at, regs, i + 1, i);
    }
  }

  lemma JoinHeadedAt(hs: map<nat, Header>, at: nat, regs: seq<Region>, i: nat, k: nat)
    requires Headed(hs, at, regs) && i + 1 < |regs| && at > 0 && k + 1 < |regs|
    requires Addr(at, regs, i) in hs && hs[Addr(at, regs, i)] == HeaderOf(at, regs, i) && Addr(at, regs, i + 1) in hs
    ensures HeadedAt(JoinHeaders(hs, Addr(at, regs, i)), at, Join(regs, i), k)
  {
    hide Addr, Headed;
    JoinAddr(at, regs, i, k);
    if k + 1 < |regs| - 1 {
      JoinAddr(at, regs, i, k + 1);
    }
    if k > 0 {
      JoinAddr(at, regs, i, k - 1);
    }
    HeaderFacts(hs, at, regs, i + 1);
    var j := if k <= i then k else k + 1;
    HeaderFacts(hs, at, regs, j);
    AddrOrder(at, regs, i, j);
    if i + 2 < |regs| {
      AddrOrder(at, regs, i + 2, j);
      AddrOrder(at, regs, i + 2, i);
    }
  }

  lemma JoinKeepsHeaded(hs: map<nat, Header>, at: nat, regs: seq<Region>, i: nat)
    requires Headed(hs, at, regs) && i + 1 < |regs| && at > 0
    ensures Addr(at, regs, i) in hs && hs[Addr(at, regs, i)] == HeaderOf(at, regs, i) && Addr(at, regs, i + 1) in hs
    ensures Headed(JoinHeaders(hs, Addr(at, regs, i)), at, Join(regs, i))
    ensures SameOutside(hs, JoinHeaders(hs, Addr(at, regs, i)), at, at + Total(regs))
  {
    hide Addr, Headed;
    HeaderFacts(hs, at, regs, i);
    HeaderFacts(hs, at, regs, i + 1);
    forall k: nat | k < |Join(regs, i)|
      ensures HeadedAt(JoinHeaders(hs, Addr(at, regs, i)), at, Join(regs, i), k)
    {
      JoinHeadedAt(hs, at, regs, i, k);
    }
    HeadedThroughout(JoinHeaders(hs, Addr(at, regs, i)), at, Join(regs, i));
    AddrOrder(at, regs, i, i);
    if i + 2 < |regs| {
      AddrOrder(at, regs, i + 2, i);
    }
  }

  lemma ShiftHeadedAt(hs: map<nat, Header>, at: nat, regs: seq<Region>, i: nat, size: nat, k: nat)
    requires Headed(hs, at, regs) && i + 1 < |regs| && size <= regs[i].size && at > 0 && k < |regs|
    requires Addr(at, regs, i) in hs && hs[Addr(at, regs, i)] == HeaderOf(at, regs, i) && Addr(at, regs, i + 1) in hs
    ensures HeadedAt(ShiftHeaders(hs, Addr(at, regs, i), size), at, Shift(regs, i, size), k)
  {
    hide Addr, Headed;
    ShiftAddr(at, regs, i, size, k);
    ShiftAddr(at, regs, i, size, k + 1);
    if k > 0 {
      ShiftAddr(at, regs, i, size, k - 1);
    }
    HeaderFacts(hs, at, regs, i + 1);
    HeaderFacts(hs, at, regs, k);
    AddrOrder(at, regs, i, k);
    AddrOrder(at, regs, i, i + 1);
    AddrOrder(at, regs, k, i + 1);
    if i + 2 < |regs| {
      AddrOrder(at, regs, i + 2, k);
      AddrOrder(at, regs, i + 2, i);
      AddrOrder(at, regs, i + 2, i + 1);
    }
  }

  lemma ShiftKeepsHeaded(hs: map<nat, Header>, at: nat, regs: seq<Region>, i: nat, size: nat)
    requires Headed(hs, at, regs) && i + 1 < |regs| && size <= regs[i].size && at > 0
    ensures Addr(at, regs, i) in hs && hs[Addr(at, regs, i)] == HeaderOf(at, regs, i) && Addr(at, regs, i + 1) in hs
    ensures Headed(ShiftHeaders(hs, Addr(at, regs, i), size), at, Shift(regs, i, size))
    ensures SameOutside(hs, ShiftHeaders(hs, Addr(at, regs, i), size), at, at + Total(regs))
  {
    hide Addr, Headed;
    HeaderFacts(hs, at, regs, i);
    HeaderFacts(hs, at, regs, i + 1);
    forall k: nat | k < |Shift(regs, i, size)|
      ensures HeadedAt(ShiftHeaders(hs, Addr(at, regs, i), size), at, Shift(regs, i, size), k)
    {
      ShiftHeadedAt(hs, at, regs, i, size, k);
    }
    HeadedThroughout(ShiftHeaders(hs, Addr(at, regs, i), size), at, Shift(regs, i, size));
    AddrOrder(at, regs, i, i + 1);
    AddrOrder(at, regs, i + 1, i);
    if i + 2 < |regs| {
      AddrOrder(at, regs, i + 2, i);
    }
  }

  /** As it stands split_region keeps the chain exactly when it cuts the last region: otherwise
      the region after the new one still points back past it. */
  lemma LiteralCutKeepsExactly(hs: map<nat, Header>, at: nat, regs: seq<Region>, i: nat, size: nat)
    requires Headed(hs, at, regs) && CanCut(regs, i, size) && at > 0
    ensures Addr(at, regs, i) in hs && hs[Addr(at, regs, i)].size == regs[i].size
    ensures Headed(LiteralCut(hs, Addr(at, regs, i), size), at, Cut(regs, i, size)) <==> i + 1 == |regs|
  {
    hide Addr, Headed;
    CutKeepsHeaded(hs, at, regs, i, size);
    HeaderFacts(hs, at, regs, i);
    var cut, gs := Cut(regs, i, size), LiteralCut(hs, Addr(at, regs, i), size);
    if i + 1 < |regs| {
      CutAddr(at, regs, i, size, i + 2);
      CutAddr(at, regs, i, size, i + 1);
      AddrOrder(at, regs, i, i + 1);
      HeaderFacts(hs, at, regs, i + 1);
      if Headed(gs, at, cut) {
        HeaderFacts(gs, at, cut, i + 2);
        assert false;
      }
    }
  }

  /** The same of split_and_coalesce_next_regions, for the region after the one it moves. */
  lemma LiteralShiftKeepsExactly(hs: map<nat, Header>, at: nat, regs: seq<Region>, i: nat, size: nat)
    requires Headed(hs, at, regs) && i + 1 < |regs| && size < regs[i].size && at > 0
    ensures Addr(at, regs, i) in hs && hs[Addr(at, regs, i)].next in hs && hs[Addr(at, regs, i)].size == regs[i].size
    ensures Headed(LiteralShift(hs, Addr(at, regs, i), size), at, Shift(regs, i, size)) <==> i + 2 == |regs|
  {
    hide Addr, Headed;
    ShiftKeepsHeaded(hs, at, regs, i, size);
    HeaderFacts(hs, at, regs, i);
    HeaderFacts(hs, at, regs, i + 1);
    var moved, gs := Shift(regs, i, size), LiteralShift(hs, Addr(at, regs, i), size);
    if i + 2 < |regs| {
      ShiftAddr(at, regs, i, size, i + 2);
      ShiftAddr(at, regs, i, size, i + 1);
      AddrOrder(at, regs, i, i + 1);
      AddrOrder(at, regs, i + 1, i + 2);
      HeaderFacts(hs, at, regs, i + 2);
      if Headed(gs, at, moved) {
        HeaderFacts(gs, at, moved, i + 2);
        assert false;
      }
    }
  }

  lemma SetFreeKeepsHeaded(hs: map<nat, Header>, at: nat, regs: seq<Region>, i: nat, free: bool)
    requires Headed(hs, at, regs) && i < |regs| && at > 0
    ensures Addr(at, regs, i) in hs && hs[Addr(at, regs, i)] == HeaderOf(at, regs, i)
    ensures var r := Addr(at, regs, i);
            Headed(hs[r := Header(hs[r].next, hs[r].prev, hs[r].size, free)], at, SetFree(regs, i, free))
  {
    hide Addr, Headed;
    HeaderFacts(hs, at, regs, i);
    var r := Addr(at, regs, i);
    var gs := hs[r := Header(hs[r].next, hs[r].prev, hs[r].size, free)];
    forall k: nat | k < |SetFree(regs, i, free)|
      ensures HeadedAt(gs, at, SetFree(regs, i, free), k)
    {
      SetFreeAddr(at, regs, i, free, k);
      SetFreeAddr(at, regs, i, free, k + 1);
      if k > 0 {
        SetFreeAddr(at, regs, i, free, k - 1);
      }
      HeaderFacts(hs, at, regs, k);
      AddrOrder(at, regs, i, k);
    }
    HeadedThroughout(gs, at, SetFree(regs, i, free));
  }

  /** Headers elsewhere do not matter. */
  lemma HeadedElsewhere(hs: map<nat, Header>, gs: map<nat, Header>, at: nat, regs: seq<Region>, lo: nat, hi: nat)
    requires Headed(hs, at, regs) && SameOutside(hs, gs, lo, hi) && (at + Total(regs) <= lo || hi <= at)
    ensures Headed(gs, at, regs)
  {
    forall i: nat | i < |regs|
      ensures HeadedAt(gs, at, regs, i)
    {
      assert HeadedAt(hs, at, regs, i);
      AddrOrder(at, regs, i, i);
    }
  }

  // ---------------------------------------------------------------- allocations

  function One(at: nat, r: Region): set<Alloc> {
    if r.free then {} else {Alloc(at + HEADER, r.size)}
  }

  /** The live allocations of a chain that starts at `at`. */
  function AllocsIn(at: nat, regs: seq<Region>): set<Alloc> {
    if |regs| == 0 then {}
    else AllocsIn(at, regs[..|regs| - 1]) + One(at + Total(regs[..|regs| - 1]), regs[|regs| - 1])
  }

  lemma {:induction false} AllocsConcat(at: nat, a: seq<Region>, b: seq<Region>)
    ensures AllocsIn(at, a + b) == AllocsIn(at, a) + AllocsIn(at + Total(a), b)
    decreases |b|
  {
    if |b| == 0 {
      assert a + b == a;
    } else {
      var c := b[..|b| - 1];
      assert (a + b)[..|a + b| - 1] == a + c;
      AllocsConcat(at, a, c);
      TotalConcat(a, c);
    }
  }

  lemma {:induction false} AllocsInside(at: nat, regs: seq<Region>, x: Alloc)
    requires x in AllocsIn(at, regs)
    ensures at + HEADER <= x.ptr && x.ptr + x.size <= at + Total(regs)
    decreases |regs|
  {
    if x in AllocsIn(at, regs[..|regs| - 1]) {
      AllocsInside(at, regs[..|regs| - 1], x);
    }
  }

  /** Payloads of different live allocations do not overlap. */
  lemma {:induction false} AllocsDisjoint(at: nat, regs: seq<Region>, x: Alloc, y: Alloc)
    requires x in AllocsIn(at, regs) && y in AllocsIn(at, regs) && x != y
    ensures x.ptr + x.size + HEADER <= y.ptr || y.ptr + y.size + HEADER <= x.ptr
    decreases |regs|
  {
    var front := regs[..|regs| - 1];
    if x in AllocsIn(at, front) {
      AllocsInside(at, front, x);
    }
    if y in AllocsIn(at, front) {
      AllocsInside(at, front, y);
    }
    if x in AllocsIn(at, front) && y in AllocsIn(at, front) {
      AllocsDisjoint(at, front, x, y);
    }
  }

  lemma TwoAllocs(at: nat, a: Region, b: Region)
    ensures AllocsIn(at, [a]) == One(at, a)
    ensures AllocsIn(at, [a, b]) == One(at, a) + One(at + HEADER + a.size, b)
  {
    OneTwoTotals(a, b);
    assert [a, b][..1] == [a] && [a][..0] == [];
  }

  /** Replacing regions changes the allocations among them and no others. */
  lemma SpliceAllocs(at: nat, regs: seq<Region>, i: nat, j: nat, mid: seq<Region>)
    requires i <= j <= |regs| && Total(mid) == Total(regs[i..j])
    ensures AllocsIn(at, Splice(regs, i, j, mid)) ==
              AllocsIn(at, regs) - AllocsIn(Addr(at, regs, i), regs[i..j]) + AllocsIn(Addr(at, regs, i), mid)
  {
    hide AllocsIn, Total;
    var pre, was, post := regs[..i], regs[i..j], regs[j..];
    assert regs == pre + was + post;
    TotalConcat(pre, was);
    TotalConcat(pre, mid);
    AllocsConcat(at, pre + was, post);
    AllocsConcat(at, pre, was);
    AllocsConcat(at, pre + mid, post);
    AllocsConcat(at, pre, mid);
    var mine := at + Total(pre);
    forall x | x in AllocsIn(mine, was)
      ensures x !in AllocsIn(at, pre) && x !in AllocsIn(mine + Total(was), post)
    {
      AllocsInside(mine, was, x);
      if x in AllocsIn(at, pre) { AllocsInside(at, pre, x); }
      if x in AllocsIn(mine + Total(was), post) { AllocsInside(mine + Total(was), post, x); }
    }
  }
}
