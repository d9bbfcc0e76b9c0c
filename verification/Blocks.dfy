/** The blocks the malloc library holds, and what the whole heap means. */
module Blocks {
  import opened Regions

  const BLOCK_SM: nat := 16 * 1024
  const BLOCK_MD: nat := 1024 * 1024
  const BLOCK_LG: nat := 32 * 1024 * 1024
  const HARD_LIMIT: nat := 10 * BLOCK_LG

  /** A block header in memory; 0 is NULL. */
  datatype BlockHeader = BlockHeader(next: nat, prev: nat, size: nat)

  function Start(b: Block): nat {
    b.base + BLOCK_HEADER
  }

  function End(b: Block): nat {
    Start(b) + b.size
  }

  ghost predicate BlockOk(b: Block) {
    && b.base > 0 && (b.size == BLOCK_SM || b.size == BLOCK_MD || b.size == BLOCK_LG)
    && b.regs != [] && Total(b.regs) == b.size
    && forall r | r in b.regs :: r.size >= MIN_REGION
  }

  predicate Apart(a: Block, b: Block) {
    End(a) <= b.base || End(b) <= a.base
  }

  ghost predicate BlocksOk(bs: seq<Block>) {
    && (forall k: nat | k < |bs| :: BlockOk(bs[k]))
    && (forall j: nat, k: nat | j < k < |bs| :: Apart(bs[j], bs[k]))
  }

  /** Every header of every block is in memory and says what it must. */
  ghost predicate AllHeaded(hs: map<nat, Header>, bs: seq<Block>) {
    forall k: nat | k < |bs| :: Headed(hs, Start(bs[k]), bs[k].regs)
  }

  function BaseOf(bs: seq<Block>, k: int): nat {
    if 0 <= k < |bs| then bs[k].base else 0
  }

  function BlockHeaderOf(bs: seq<Block>, k: nat): BlockHeader
    requires k < |bs|
  {
    BlockHeader(BaseOf(bs, k + 1), BaseOf(bs, k - 1), bs[k].size)
  }

  /** The doubly linked list of blocks. */
  ghost predicate Listed(hs: map<nat, BlockHeader>, bs: seq<Block>) {
    forall k: nat | k < |bs| :: bs[k].base in hs && hs[bs[k].base] == BlockHeaderOf(bs, k)
  }

  function SumSizes(bs: seq<Block>): nat {
    if |bs| == 0 then 0 else SumSizes(bs[..|bs| - 1]) + bs[|bs| - 1].size
  }

  function CountRegions(bs: seq<Block>): nat {
    if |bs| == 0 then 0 else CountRegions(bs[..|bs| - 1]) + |bs[|bs| - 1].regs|
  }

  /** Every live allocation. */
  function Allocs(bs: seq<Block>): set<Alloc> {
    if |bs| == 0 then {} else Allocs(bs[..|bs| - 1]) + AllocsIn(Start(bs[|bs| - 1]), bs[|bs| - 1].regs)
  }

  lemma {:induction false} SumsConcat(a: seq<Block>, b: seq<Block>)
    ensures SumSizes(a + b) == SumSizes(a) + SumSizes(b)
    ensures CountRegions(a + b) == CountRegions(a) + CountRegions(b)
    ensures Allocs(a + b) == Allocs(a) + Allocs(b)
    decreases |b|
  {
    if |b| == 0 {
      assert a + b == a;
    } else {
      assert (a + b)[..|a + b| - 1] == a + b[..|b| - 1];
      SumsConcat(a, b[..|b| - 1]);
    }
  }

  lemma SumsOfOne(b: Block)
    ensures SumSizes([b]) == b.size && CountRegions([b]) == |b.regs| && Allocs([b]) == AllocsIn(Start(b), b.regs)
  {
    assert [b][..0] == [];
  }

  /** Whose allocation it is. */
  lemma {:induction false} AllocIsInBlock(bs: seq<Block>, x: Alloc) returns (k: nat)
    requires x in Allocs(bs)
    ensures k < |bs| && x in AllocsIn(Start(bs[k]), bs[k].regs)
    decreases |bs|
  {
    var n := |bs| - 1;
    if x in AllocsIn(Start(bs[n]), bs[n].regs) {
      k := n;
    } else {
      k := AllocIsInBlock(bs[..n], x);
    }
  }

  lemma {:induction false} BlockAllocsAreAllocs(bs: seq<Block>, k: nat)
    requires k < |bs|
    ensures AllocsIn(Start(bs[k]), bs[k].regs) <= Allocs(bs)
    decreases |bs|
  {
    if k < |bs| - 1 {
      BlockAllocsAreAllocs(bs[..|bs| - 1], k);
    }
  }

  predicate Inside(b: Block, x: Alloc) {
    Start(b) + HEADER <= x.ptr && x.ptr + x.size <= End(b)
  }

  /** MAIN RESULT of the layout: live allocations never overlap and stay inside their blocks. */
  lemma LiveAllocationsAreDisjoint(bs: seq<Block>, x: Alloc, y: Alloc)
    requires BlocksOk(bs) && x in Allocs(bs) && y in Allocs(bs) && x != y
    ensures x.ptr + x.size <= y.ptr || y.ptr + y.size <= x.ptr
    ensures x.ptr != y.ptr
    ensures exists k: nat :: k < |bs| && Inside(bs[k], x)
  {
    var j := AllocIsInBlock(bs, x);
    var k := AllocIsInBlock(bs, y);
    AllocsInside(Start(bs[j]), bs[j].regs, x);
    AllocsInside(Start(bs[k]), bs[k].regs, y);
    assert Inside(bs[j], x);
    if j == k {
      AllocsDisjoint(Start(bs[j]), bs[j].regs, x, y);
    } else {
      assert Apart(bs[if j < k then j else k], bs[if j < k then k else j]);
    }
  }

  // ---------------------------------------------------------------- one block changes

  function SetRegs(bs: seq<Block>, k: nat, regs: seq<Region>): seq<Block>
    requires k < |bs|
  {
    bs[k := Block(bs[k].base, bs[k].size, regs)]
  }

  lemma SetRegsSums(bs: seq<Block>, k: nat, regs: seq<Region>)
    requires k < |bs|
    ensures SumSizes(SetRegs(bs, k, regs)) == SumSizes(bs)
    ensures CountRegions(SetRegs(bs, k, regs)) == CountRegions(bs) - |bs[k].regs| + |regs|
    ensures Allocs(SetRegs(bs, k, regs)) == Allocs(bs[..k]) + AllocsIn(Start(bs[k]), regs) + Allocs(bs[k + 1..])
    ensures Allocs(bs) == Allocs(bs[..k]) + AllocsIn(Start(bs[k]), bs[k].regs) + Allocs(bs[k + 1..])
  {
    hide SumSizes, CountRegions, Allocs;
    var nb := Block(bs[k].base, bs[k].size, regs);
    assert bs == bs[..k] + [bs[k]] + bs[k + 1..];
    assert SetRegs(bs, k, regs) == bs[..k] + [nb] + bs[k + 1..];
    SumsOfOne(bs[k]);
    SumsOfOne(nb);
    SumsConcat(bs[..k] + [bs[k]], bs[k + 1..]);
    SumsConcat(bs[..k], [bs[k]]);
    SumsConcat(bs[..k] + [nb], bs[k + 1..]);
    SumsConcat(bs[..k], [nb]);
  }

  lemma AllocIsInside(bs: seq<Block>, x: Alloc)
    requires forall j: nat | j < |bs| :: Total(bs[j].regs) == bs[j].size
    ensures x in Allocs(bs) ==> exists j: nat :: j < |bs| && Inside(bs[j], x)
  {
    if x in Allocs(bs) {
      var j := AllocIsInBlock(bs, x);
      AllocsInside(Start(bs[j]), bs[j].regs, x);
      assert Inside(bs[j], x);
    }
  }

  lemma AllocsElsewhere(cs: seq<Block>, b: Block, x: Alloc)
    requires forall j: nat | j < |cs| :: Apart(cs[j], b) && Total(cs[j].regs) == cs[j].size
    requires Inside(b, x)
    ensures x !in Allocs(cs)
  {
    AllocIsInside(cs, x);
  }

  lemma AllocIsNowhereElse(bs: seq<Block>, k: nat, x: Alloc)
    requires BlocksOk(bs) && k < |bs| && x in AllocsIn(Start(bs[k]), bs[k].regs)
    ensures x !in Allocs(bs[..k]) && x !in Allocs(bs[k + 1..])
  {
    hide Allocs, AllocsIn, Total;
    assert BlockOk(bs[k]);
    AllocsInside(Start(bs[k]), bs[k].regs, x);
    assert forall j: nat | j < |bs[..k]| :: Apart(bs[j], bs[k]) && BlockOk(bs[j]);
    AllocsElsewhere(bs[..k], bs[k], x);
    var cs := bs[k + 1..];
    forall j: nat | j < |cs|
      ensures Apart(cs[j], bs[k]) && BlockOk(cs[j])
    {
      assert Apart(bs[k], bs[k + 1 + j]) && BlockOk(bs[k + 1 + j]);
    }
    AllocsElsewhere(cs, bs[k], x);
  }

  /** A change among the regions of one block changes the live allocations by what it changes there. */
  lemma SetRegsAllocs(bs: seq<Block>, k: nat, regs: seq<Region>, gone: set<Alloc>, come: set<Alloc>)
    requires BlocksOk(bs) && k < |bs| && gone <= AllocsIn(Start(bs[k]), bs[k].regs)
    requires AllocsIn(Start(bs[k]), regs) == AllocsIn(Start(bs[k]), bs[k].regs) - gone + come
    ensures Allocs(SetRegs(bs, k, regs)) == Allocs(bs) - gone + come
  {
    SetRegsSums(bs, k, regs);
    hide Allocs, AllocsIn;
    forall x | x in gone
      ensures x !in Allocs(bs[..k]) && x !in Allocs(bs[k + 1..])
    {
      AllocIsNowhereElse(bs, k, x);
    }
  }

  lemma SetRegsKeepsBlocks(bs: seq<Block>, k: nat, regs: seq<Region>)
    requires BlocksOk(bs) && k < |bs| && regs != [] && Total(regs) == Total(bs[k].regs) && forall r | r in regs :: r.size >= MIN_REGION
    ensures BlocksOk(SetRegs(bs, k, regs))
  {
    var cs := SetRegs(bs, k, regs);
    forall j: nat | j < |cs|
      ensures BlockOk(cs[j])
    {
      assert BlockOk(bs[j]) && BlockOk(bs[k]);
    }
    forall i: nat, j: nat | i < j < |cs|
      ensures Apart(cs[i], cs[j])
    {
      assert Apart(bs[i], bs[j]);
    }
  }

  lemma SetRegsKeepsHeaded(hs: map<nat, Header>, gs: map<nat, Header>, bs: seq<Block>, k: nat, regs: seq<Region>)
    requires BlocksOk(bs) && AllHeaded(hs, bs) && k < |bs| && SameOutside(hs, gs, Start(bs[k]), End(bs[k]))
    requires Headed(gs, Start(bs[k]), regs)
    ensures AllHeaded(gs, SetRegs(bs, k, regs))
  {
    hide Headed;
    forall j: nat | j < |bs| && j != k
      ensures Headed(gs, Start(bs[j]), bs[j].regs)
    {
      assert BlockOk(bs[j]) && Apart(bs[if j < k then j else k], bs[if j < k then k else j]);
      HeadedElsewhere(hs, gs, Start(bs[j]), bs[j].regs, Start(bs[k]), End(bs[k]));
    }
  }

  lemma SetRegsKeepsListed(hs: map<nat, BlockHeader>, bs: seq<Block>, k: nat, regs: seq<Region>)
    requires Listed(hs, bs) && k < |bs|
    ensures Listed(hs, SetRegs(bs, k, regs))
  {
    var cs := SetRegs(bs, k, regs);
    forall j: nat | j < |cs|
      ensures cs[j].base in hs && hs[cs[j].base] == BlockHeaderOf(cs, j)
    {
      assert bs[j].base in hs && hs[bs[j].base] == BlockHeaderOf(bs, j);
    }
  }

  // ---------------------------------------------------------------- header bytes and payload bytes

  ghost predicate InHeader(at: nat, regs: seq<Region>, a: nat) {
    exists i: nat :: i < |regs| && Addr(at, regs, i) <= a < Addr(at, regs, i) + HEADER
  }

  ghost predicate InHeaders(bs: seq<Block>, a: nat) {
    exists k: nat :: k < |bs| && (bs[k].base <= a < Start(bs[k]) || InHeader(Start(bs[k]), bs[k].regs, a))
  }

  /** Writing a header at `r` can hurt header bytes only. */
  ghost predicate Covered(bs: seq<Block>, r: nat) {
    forall a: nat | r <= a < r + HEADER :: InHeaders(bs, a)
  }

  lemma HeaderIsCovered(bs: seq<Block>, k: nat, i: nat)
    requires k < |bs| && i < |bs[k].regs|
    ensures Covered(bs, Addr(Start(bs[k]), bs[k].regs, i))
  {
    forall a: nat | Addr(Start(bs[k]), bs[k].regs, i) <= a < Addr(Start(bs[k]), bs[k].regs, i) + HEADER
      ensures InHeaders(bs, a)
    {
      assert InHeader(Start(bs[k]), bs[k].regs, a);
    }
  }

  lemma {:induction false} AllocIsRegion(at: nat, regs: seq<Region>, x: Alloc) returns (i: nat)
    requires x in AllocsIn(at, regs)
    ensures i < |regs| && !regs[i].free && x == Alloc(Addr(at, regs, i) + HEADER, regs[i].size)
    decreases |regs|
  {
    var n := |regs| - 1;
    if x in AllocsIn(at, regs[..n]) {
      i := AllocIsRegion(at, regs[..n], x);
      assert regs[..n][..i] == regs[..i];
    } else {
      i := n;
    }
  }

  lemma {:induction false} RegionIsAlloc(at: nat, regs: seq<Region>, i: nat)
    requires i < |regs| && !regs[i].free
    ensures Alloc(Addr(at, regs, i) + HEADER, regs[i].size) in AllocsIn(at, regs)
    decreases |regs|
  {
    if i < |regs| - 1 {
      RegionIsAlloc(at, regs[..|regs| - 1], i);
      assert regs[..|regs| - 1][..i] == regs[..i];
    }
  }

  /** No byte behind a header, up to the size it gives, is a header byte. */
  lemma RegionIsNotHeader(bs: seq<Block>, k: nat, i: nat, a: nat)
    requires BlocksOk(bs) && k < |bs| && i < |bs[k].regs|
    requires Addr(Start(bs[k]), bs[k].regs, i) + HEADER <= a < Addr(Start(bs[k]), bs[k].regs, i) + HEADER + bs[k].regs[i].size
    ensures !InHeaders(bs, a)
  {
    hide Allocs, Total, Addr;
    AddrOrder(Start(bs[k]), bs[k].regs, i, i);
    forall j: nat | j < |bs|
      ensures !(bs[j].base <= a < Start(bs[j])) && !InHeader(Start(bs[j]), bs[j].regs, a)
    {
      assert BlockOk(bs[j]) && BlockOk(bs[k]);
      if j == k {
        PayloadNotInHeader(Start(bs[k]), bs[k].regs, i, a);
      } else {
        assert Apart(bs[if j < k then j else k], bs[if j < k then k else j]);
        HeadersInside(Start(bs[j]), bs[j].regs, a);
      }
    }
  }

  /** No byte of a live allocation is a header byte. */
  lemma PayloadIsNotHeader(bs: seq<Block>, x: Alloc, a: nat)
    requires BlocksOk(bs) && x in Allocs(bs) && x.ptr <= a < x.ptr + x.size
    ensures !InHeaders(bs, a)
  {
    var k := AllocIsInBlock(bs, x);
    var i := AllocIsRegion(Start(bs[k]), bs[k].regs, x);
    RegionIsNotHeader(bs, k, i, a);
  }

  lemma PayloadNotInHeader(at: nat, regs: seq<Region>, i: nat, a: nat)
    requires i < |regs| && Addr(at, regs, i) + HEADER <= a < Addr(at, regs, i) + HEADER + regs[i].size
    ensures !InHeader(at, regs, a)
  {
    forall j: nat | j < |regs|
      ensures !(Addr(at, regs, j) <= a < Addr(at, regs, j) + HEADER)
    {
      AddrOrder(at, regs, i, j);
    }
  }

  lemma HeadersInside(at: nat, regs: seq<Region>, a: nat)
    ensures InHeader(at, regs, a) ==> at <= a < at + Total(regs)
  {
    if InHeader(at, regs, a) {
      var i: nat :| i < |regs| && Addr(at, regs, i) <= a < Addr(at, regs, i) + HEADER;
      AddrOrder(at, regs, i, i);
    }
  }

  // ---------------------------------------------------------------- the whole heap

  ghost predicate HeapOk(hs: map<nat, Header>, ls: map<nat, BlockHeader>, bs: seq<Block>, head: nat, tail: nat) {
    BlocksOk(bs) && AllHeaded(hs, bs) && Listed(ls, bs) && head == BaseOf(bs, 0) && tail == BaseOf(bs, |bs| - 1)
  }

  /** `r` is the header of region `i` of block `k`. */
  predicate IsAt(bs: seq<Block>, k: nat, i: nat, r: nat) {
    k < |bs| && i < |bs[k].regs| && r == Addr(Start(bs[k]), bs[k].regs, i)
  }

  function RegionAt(bs: seq<Block>, k: nat, i: nat): Region {
    if k < |bs| && i < |bs[k].regs| then bs[k].regs[i] else Region(0, true)
  }

  lemma HeaderAt(hs: map<nat, Header>, ls: map<nat, BlockHeader>, bs: seq<Block>, head: nat, tail: nat, k: nat, i: nat, r: nat)
    requires HeapOk(hs, ls, bs, head, tail) && IsAt(bs, k, i, r)
    ensures r in hs && hs[r] == HeaderOf(Start(bs[k]), bs[k].regs, i) && r > 0
    ensures hs[r].next != 0 <==> i + 1 < |bs[k].regs|
    ensures hs[r].prev != 0 <==> i > 0
    ensures hs[r].size == RegionAt(bs, k, i).size >= MIN_REGION && hs[r].free == RegionAt(bs, k, i).free
    ensures i + 1 < |bs[k].regs| ==> IsAt(bs, k, i + 1, hs[r].next)
    ensures i > 0 ==> IsAt(bs, k, i - 1, hs[r].prev)
  {
    assert BlockOk(bs[k]);
    HeaderFacts(hs, Start(bs[k]), bs[k].regs, i);
    assert bs[k].regs[i] in bs[k].regs;
  }

  /** A step on the regions of one block, seen from the whole heap. */
  lemma StepKeepsHeap(
      hs: map<nat, Header>, gs: map<nat, Header>, ls: map<nat, BlockHeader>, bs: seq<Block>, head: nat, tail: nat,
      k: nat, regs: seq<Region>)
    requires HeapOk(hs, ls, bs, head, tail) && k < |bs|
    requires Headed(gs, Start(bs[k]), regs) && SameOutside(hs, gs, Start(bs[k]), Start(bs[k]) + Total(bs[k].regs))
    requires regs != [] && Total(regs) == Total(bs[k].regs) && forall r | r in regs :: r.size >= MIN_REGION
    ensures HeapOk(gs, ls, SetRegs(bs, k, regs), head, tail)
  {
    hide Headed, Listed, AllHeaded, SameOutside, Total;
    assert BlockOk(bs[k]);
    SetRegsKeepsBlocks(bs, k, regs);
    SetRegsKeepsHeaded(hs, gs, bs, k, regs);
    SetRegsKeepsListed(ls, bs, k, regs);
  }

  /** split_region with the back link. */
  lemma CutStep(
      hs: map<nat, Header>, ls: map<nat, BlockHeader>, bs: seq<Block>, head: nat, tail: nat, k: nat, i: nat, r: nat, size: nat)
    requires HeapOk(hs, ls, bs, head, tail) && IsAt(bs, k, i, r)
    requires MIN_REGION <= size && size + HEADER + MIN_REGION <= RegionAt(bs, k, i).size
    ensures r in hs && hs[r].size == RegionAt(bs, k, i).size && CanCut(bs[k].regs, i, size)
    ensures var cs := SetRegs(bs, k, Cut(bs[k].regs, i, size));
            && HeapOk(CutHeaders(hs, r, size), ls, cs, head, tail)
            && Covered(cs, r) && Covered(cs, r + HEADER + size) && (hs[r].next != 0 ==> hs[r].next in hs && Covered(cs, hs[r].next))
            && SumSizes(cs) == SumSizes(bs) && CountRegions(cs) == CountRegions(bs) + 1
            && Allocs(cs) == Allocs(bs) - One(r, bs[k].regs[i]) + One(r, Region(size, bs[k].regs[i].free))
  {
    hide Addr, Total, Headed, AllocsIn, Allocs, BlocksOk, AllHeaded, Listed, Covered, SumSizes, CountRegions;
    HeaderAt(hs, ls, bs, head, tail, k, i, r);
    var at, regs := Start(bs[k]), bs[k].regs;
    assert Headed(hs, at, regs) by { BlockHeaded(hs, bs, k); }
    var mid := [Region(size, regs[i].free), Region(regs[i].size - size - HEADER, true)];
    CutKeepsHeaded(hs, at, regs, i, size);
    CutAddr(at, regs, i, size, i);
    CutAddr(at, regs, i, size, i + 1);
    SizesStay(bs, k, i, i + 1, mid);
    StepKeepsHeap(hs, CutHeaders(hs, r, size), ls, bs, head, tail, k, Cut(regs, i, size));
    var cs := SetRegs(bs, k, Cut(regs, i, size));
    HeaderIsCovered(cs, k, i);
    HeaderIsCovered(cs, k, i + 1);
    if hs[r].next != 0 {
      CutAddr(at, regs, i, size, i + 2);
      HeaderIsCovered(cs, k, i + 2);
      HeaderAt(hs, ls, bs, head, tail, k, i + 1, hs[r].next);
    }
    SetRegsSums(bs, k, Cut(regs, i, size));
    OneTwoTotals(mid[0], mid[1]);
    SliceTotals(regs, i);
    SpliceStepAllocs(bs, k, i, i + 1, mid);
    TwoAllocs(r, regs[i], regs[i]);
    TwoAllocs(r, mid[0], mid[1]);
    assert regs[i..i + 1] == [regs[i]];
  }

  lemma BlockHeaded(hs: map<nat, Header>, bs: seq<Block>, k: nat)
    requires AllHeaded(hs, bs) && k < |bs|
    ensures Headed(hs, Start(bs[k]), bs[k].regs)
  {
  }

  lemma SizesStay(bs: seq<Block>, k: nat, i: nat, j: nat, mid: seq<Region>)
    requires BlocksOk(bs) && k < |bs| && i <= j <= |bs[k].regs| && forall r | r in mid :: r.size >= MIN_REGION
    ensures forall r | r in Splice(bs[k].regs, i, j, mid) :: r.size >= MIN_REGION
  {
    assert BlockOk(bs[k]);
  }

  lemma SpliceStepAllocs(bs: seq<Block>, k: nat, i: nat, j: nat, mid: seq<Region>)
    requires BlocksOk(bs) && k < |bs| && i <= j <= |bs[k].regs| && Total(mid) == Total(bs[k].regs[i..j])
    ensures var at := Addr(Start(bs[k]), bs[k].regs, i);
            Allocs(SetRegs(bs, k, Splice(bs[k].regs, i, j, mid))) ==
            Allocs(bs) - AllocsIn(at, bs[k].regs[i..j]) + AllocsIn(at, mid)
  {
    hide Addr, Total, AllocsIn, Allocs, BlocksOk;
    var at, regs := Start(bs[k]), bs[k].regs;
    SpliceAllocs(at, regs, i, j, mid);
    assert AllocsIn(Addr(at, regs, i), regs[i..j]) <= AllocsIn(at, regs) by {
      SliceAllocs(at, regs, i, j);
    }
    SetRegsAllocs(bs, k, Splice(regs, i, j, mid), AllocsIn(Addr(at, regs, i), regs[i..j]), AllocsIn(Addr(at, regs, i), mid));
  }

  lemma SliceAllocs(at: nat, regs: seq<Region>, i: nat, j: nat)
    requires i <= j <= |regs|
    ensures AllocsIn(Addr(at, regs, i), regs[i..j]) <= AllocsIn(at, regs)
  {
    hide AllocsIn, Total;
    assert regs == regs[..i] + regs[i..j] + regs[j..];
    AllocsConcat(at, regs[..i] + regs[i..j], regs[j..]);
    AllocsConcat(at, regs[..i], regs[i..j]);
  }

  lemma JoinAllocs(bs: seq<Block>, k: nat, i: nat)
    requires BlocksOk(bs) && k < |bs| && i + 1 < |bs[k].regs|
    ensures var at, regs := Start(bs[k]), bs[k].regs;
            Allocs(SetRegs(bs, k, Join(regs, i))) ==
            Allocs(bs) - One(Addr(at, regs, i), regs[i]) - One(Addr(at, regs, i + 1), regs[i + 1])
            + One(Addr(at, regs, i), Region(regs[i].size + regs[i + 1].size + HEADER, regs[i].free))
  {
    hide Addr, Total, AllocsIn, Allocs, BlocksOk;
    var at, regs := Start(bs[k]), bs[k].regs;
    var r, mid := Addr(at, regs, i), [Region(regs[i].size + regs[i + 1].size + HEADER, regs[i].free)];
    OneTwoTotals(mid[0], mid[0]);
    SliceTotals(regs, i);
    SpliceStepAllocs(bs, k, i, i + 2, mid);
    TwoAllocs(r, mid[0], mid[0]);
    TwoAllocs(r, regs[i], regs[i + 1]);
    AddrNext(at, regs, i);
    assert regs[i..i + 2] == [regs[i], regs[i + 1]];
  }

  /** coalesce_region_with_its_next. */
  lemma JoinStep(hs: map<nat, Header>, ls: map<nat, BlockHeader>, bs: seq<Block>, head: nat, tail: nat, k: nat, i: nat, r: nat)
    requires HeapOk(hs, ls, bs, head, tail) && IsAt(bs, k, i, r) && i + 1 < |bs[k].regs|
    ensures r in hs && hs[r].next in hs && IsAt(bs, k, i + 1, hs[r].next)
    ensures var cs := SetRegs(bs, k, Join(bs[k].regs, i));
            && HeapOk(JoinHeaders(hs, r), ls, cs, head, tail) && IsAt(cs, k, i, r)
            && Covered(cs, r) && (hs[hs[r].next].next != 0 ==> hs[hs[r].next].next in hs && Covered(cs, hs[hs[r].next].next))
            && SumSizes(cs) == SumSizes(bs) && CountRegions(cs) == CountRegions(bs) - 1
            && Allocs(cs) == Allocs(bs) - One(r, bs[k].regs[i]) - One(hs[r].next, bs[k].regs[i + 1])
                             + One(r, Region(bs[k].regs[i].size + bs[k].regs[i + 1].size + HEADER, bs[k].regs[i].free))
  {
    hide Addr, Total, Headed, AllocsIn, Allocs, BlocksOk, AllHeaded, Listed, Covered, SumSizes, CountRegions;
    HeaderAt(hs, ls, bs, head, tail, k, i, r);
    HeaderAt(hs, ls, bs, head, tail, k, i + 1, hs[r].next);
    var at, regs := Start(bs[k]), bs[k].regs;
    BlockHeaded(hs, bs, k);
    var mid := [Region(regs[i].size + regs[i + 1].size + HEADER, regs[i].free)];
    JoinKeepsHeaded(hs, at, regs, i);
    JoinAddr(at, regs, i, i);
    SizesStay(bs, k, i, i + 2, mid);
    StepKeepsHeap(hs, JoinHeaders(hs, r), ls, bs, head, tail, k, Join(regs, i));
    var cs := SetRegs(bs, k, Join(regs, i));
    HeaderIsCovered(cs, k, i);
    if hs[hs[r].next].next != 0 {
      JoinAddr(at, regs, i, i + 1);
      HeaderIsCovered(cs, k, i + 1);
      HeaderAt(hs, ls, bs, head, tail, k, i + 2, hs[hs[r].next].next);
    }
    SetRegsSums(bs, k, Join(regs, i));
    JoinAllocs(bs, k, i);
  }

  /** split_and_coalesce_next_regions with the back link, the next region being free. */
  lemma ShiftStep(
      hs: map<nat, Header>, ls: map<nat, BlockHeader>, bs: seq<Block>, head: nat, tail: nat, k: nat, i: nat, r: nat, size: nat)
    requires HeapOk(hs, ls, bs, head, tail) && IsAt(bs, k, i, r) && i + 1 < |bs[k].regs| && bs[k].regs[i + 1].free
    requires MIN_REGION <= size <= bs[k].regs[i].size
    ensures r in hs && hs[r].next in hs && hs[r].size == bs[k].regs[i].size
    ensures var cs := SetRegs(bs, k, Shift(bs[k].regs, i, size));
            && HeapOk(ShiftHeaders(hs, r, size), ls, cs, head, tail)
            && Covered(cs, r) && Covered(cs, r + HEADER + size)
            && (hs[hs[r].next].next != 0 ==> hs[hs[r].next].next in hs && Covered(cs, hs[hs[r].next].next))
            && SumSizes(cs) == SumSizes(bs) && CountRegions(cs) == CountRegions(bs)
            && Allocs(cs) == Allocs(bs) - One(r, bs[k].regs[i]) + One(r, Region(size, bs[k].regs[i].free))
  {
    hide Addr, Total, Headed, AllocsIn, Allocs, BlocksOk, AllHeaded, Listed, Covered, SumSizes, CountRegions;
    HeaderAt(hs, ls, bs, head, tail, k, i, r);
    HeaderAt(hs, ls, bs, head, tail, k, i + 1, hs[r].next);
    var at, regs := Start(bs[k]), bs[k].regs;
    BlockHeaded(hs, bs, k);
    var mid := [Region(size, regs[i].free), Region(regs[i + 1].size + (regs[i].size - size), true)];
    ShiftKeepsHeaded(hs, at, regs, i, size);
    ShiftAddr(at, regs, i, size, i);
    ShiftAddr(at, regs, i, size, i + 1);
    SizesStay(bs, k, i, i + 2, mid);
    StepKeepsHeap(hs, ShiftHeaders(hs, r, size), ls, bs, head, tail, k, Shift(regs, i, size));
    var cs := SetRegs(bs, k, Shift(regs, i, size));
    HeaderIsCovered(cs, k, i);
    HeaderIsCovered(cs, k, i + 1);
    if hs[hs[r].next].next != 0 {
      ShiftAddr(at, regs, i, size, i + 2);
      HeaderIsCovered(cs, k, i + 2);
      HeaderAt(hs, ls, bs, head, tail, k, i + 2, hs[hs[r].next].next);
    }
    SetRegsSums(bs, k, Shift(regs, i, size));
    OneTwoTotals(mid[0], mid[1]);
    SliceTotals(regs, i);
    SpliceStepAllocs(bs, k, i, i + 2, mid);
    TwoAllocs(r, mid[0], mid[1]);
    TwoAllocs(r, regs[i], regs[i + 1]);
    assert regs[i..i + 2] == [regs[i], regs[i + 1]];
  }

  lemma FlagAllocs(bs: seq<Block>, k: nat, i: nat, free: bool)
    requires BlocksOk(bs) && k < |bs| && i < |bs[k].regs|
    ensures var r, regs := Addr(Start(bs[k]), bs[k].regs, i), bs[k].regs;
            Allocs(SetRegs(bs, k, SetFree(regs, i, free))) == Allocs(bs) - One(r, regs[i]) + One(r, Region(regs[i].size, free))
  {
    hide Addr, Total, AllocsIn, Allocs, BlocksOk;
    var at, regs := Start(bs[k]), bs[k].regs;
    var r, mid := Addr(at, regs, i), [Region(regs[i].size, free)];
    OneTwoTotals(mid[0], mid[0]);
    SliceTotals(regs, i);
    SpliceStepAllocs(bs, k, i, i + 1, mid);
    TwoAllocs(r, mid[0], mid[0]);
    TwoAllocs(r, regs[i], regs[i]);
    assert regs[i..i + 1] == [regs[i]];
  }

  /** `region->free = free`. */
  lemma FlagStep(
      hs: map<nat, Header>, ls: map<nat, BlockHeader>, bs: seq<Block>, head: nat, tail: nat, k: nat, i: nat, r: nat, free: bool)
    requires HeapOk(hs, ls, bs, head, tail) && IsAt(bs, k, i, r)
    ensures r in hs
    ensures var cs := SetRegs(bs, k, SetFree(bs[k].regs, i, free));
            && HeapOk(hs[r := Header(hs[r].next, hs[r].prev, hs[r].size, free)], ls, cs, head, tail)
            && IsAt(cs, k, i, r) && Covered(cs, r) && SumSizes(cs) == SumSizes(bs) && CountRegions(cs) == CountRegions(bs)
            && Allocs(cs) == Allocs(bs) - One(r, bs[k].regs[i]) + One(r, Region(bs[k].regs[i].size, free))
  {
    hide Addr, Total, Headed, AllocsIn, Allocs, BlocksOk, AllHeaded, Listed, Covered, SumSizes, CountRegions;
    HeaderAt(hs, ls, bs, head, tail, k, i, r);
    var at, regs := Start(bs[k]), bs[k].regs;
    BlockHeaded(hs, bs, k);
    var mid := [Region(regs[i].size, free)];
    SetFreeKeepsHeaded(hs, at, regs, i, free);
    SetFreeAddr(at, regs, i, free, i);
    SizesStay(bs, k, i, i + 1, mid);
    AddrOrder(at, regs, i, i);
    StepKeepsHeap(hs, hs[r := Header(hs[r].next, hs[r].prev, hs[r].size, free)], ls, bs, head, tail, k, SetFree(regs, i, free));
    HeaderIsCovered(SetRegs(bs, k, SetFree(regs, i, free)), k, i);
    SetRegsSums(bs, k, SetFree(regs, i, free));
    FlagAllocs(bs, k, i, free);
  }

  // ---------------------------------------------------------------- blocks come and go

  function FreshBlock(base: nat, size: nat): Block {
    Block(base, size, [Region(if size >= HEADER then size - HEADER else 0, true)])
  }

  function SetNext(ls: map<nat, BlockHeader>, b: nat, next: nat): map<nat, BlockHeader> {
    if b in ls then ls[b := BlockHeader(next, ls[b].prev, ls[b].size)] else ls
  }

  function SetBlockPrev(ls: map<nat, BlockHeader>, b: nat, prev: nat): map<nat, BlockHeader> {
    if b in ls then ls[b := BlockHeader(ls[b].next, prev, ls[b].size)] else ls
  }

  function AppendHeaders(ls: map<nat, BlockHeader>, base: nat, size: nat, tail: nat): map<nat, BlockHeader> {
    var linked := ls[base := BlockHeader(0, tail, size)];
    if tail == 0 then linked else SetNext(linked, tail, base)
  }

  /** The operating system gives memory nobody has. */
  predicate IsFresh(bs: seq<Block>, base: nat, size: nat) {
    base > 0 && forall k: nat | k < |bs| :: Apart(bs[k], FreshBlock(base, size))
  }

  lemma FreshBlockOk(base: nat, size: nat)
    requires base > 0 && (size == BLOCK_SM || size == BLOCK_MD || size == BLOCK_LG)
    ensures BlockOk(FreshBlock(base, size)) && AllocsIn(base + BLOCK_HEADER, FreshBlock(base, size).regs) == {}
    ensures Headed(map[base + BLOCK_HEADER := Header(0, 0, size - HEADER, true)], base + BLOCK_HEADER, FreshBlock(base, size).regs)
  {
    var regs := FreshBlock(base, size).regs;
    OneTwoTotals(regs[0], regs[0]);
    TwoAllocs(base + BLOCK_HEADER, regs[0], regs[0]);
    AtZero(base + BLOCK_HEADER, regs);
  }

  ghost predicate BasesOk(bs: seq<Block>) {
    && (forall k: nat | k < |bs| :: bs[k].base > 0)
    && (forall j: nat, k: nat | j < |bs| && k < |bs| && bs[j].base == bs[k].base :: j == k)
  }

  lemma BasesAreOk(bs: seq<Block>)
    requires BlocksOk(bs)
    ensures BasesOk(bs)
  {
    hide Total;
    forall k: nat | k < |bs|
      ensures bs[k].base > 0
    {
      assert BlockOk(bs[k]);
    }
    forall j: nat, k: nat | j < |bs| && k < |bs| && j != k
      ensures bs[j].base != bs[k].base
    {
      assert Apart(bs[if j < k then j else k], bs[if j < k then k else j]);
    }
  }

  lemma AppendListedAt(ls: map<nat, BlockHeader>, bs: seq<Block>, nb: Block, k: nat)
    requires Listed(ls, bs) && BasesOk(bs + [nb]) && k <= |bs|
    ensures var cs, ms := bs + [nb], AppendHeaders(ls, nb.base, nb.size, BaseOf(bs, |bs| - 1));
            cs[k].base in ms && ms[cs[k].base] == BlockHeaderOf(cs, k)
  {
    var cs := bs + [nb];
    assert cs[|bs|] == nb;
    if k < |bs| {
      assert cs[k] == bs[k] && bs[k].base in ls && ls[bs[k].base] == BlockHeaderOf(bs, k);
    }
    if |bs| > 0 {
      assert cs[|bs| - 1] == bs[|bs| - 1];
    }
    hide Listed;
  }

  lemma AppendKeepsListed(ls: map<nat, BlockHeader>, bs: seq<Block>, nb: Block)
    requires Listed(ls, bs) && BasesOk(bs + [nb])
    ensures Listed(AppendHeaders(ls, nb.base, nb.size, BaseOf(bs, |bs| - 1)), bs + [nb])
  {
    hide AppendHeaders, BlockHeaderOf;
    forall k: nat | k < |bs + [nb]|
      ensures var cs, ms := bs + [nb], AppendHeaders(ls, nb.base, nb.size, BaseOf(bs, |bs| - 1));
              cs[k].base in ms && ms[cs[k].base] == BlockHeaderOf(cs, k)
    {
      AppendListedAt(ls, bs, nb, k);
    }
  }

  lemma AppendKeepsBlocks(bs: seq<Block>, base: nat, size: nat)
    requires BlocksOk(bs) && IsFresh(bs, base, size) && (size == BLOCK_SM || size == BLOCK_MD || size == BLOCK_LG)
    ensures BlocksOk(bs + [FreshBlock(base, size)])
  {
    hide Total;
    FreshBlockOk(base, size);
  }

  lemma AppendKeepsHeaded(hs: map<nat, Header>, bs: seq<Block>, base: nat, size: nat)
    requires AllHeaded(hs, bs) && BlocksOk(bs) && IsFresh(bs, base, size)
    requires size == BLOCK_SM || size == BLOCK_MD || size == BLOCK_LG
    ensures AllHeaded(hs[base + BLOCK_HEADER := Header(0, 0, size - HEADER, true)], bs + [FreshBlock(base, size)])
  {
    hide Total;
    var nb := FreshBlock(base, size);
    var gs, cs := hs[base + BLOCK_HEADER := Header(0, 0, size - HEADER, true)], bs + [nb];
    FreshBlockOk(base, size);
    forall k: nat | k < |cs|
      ensures Headed(gs, Start(cs[k]), cs[k].regs)
    {
      if k < |bs| {
        assert BlockOk(bs[k]) && Apart(bs[k], nb);
        HeadedElsewhere(hs, gs, Start(bs[k]), bs[k].regs, Start(nb), End(nb));
      } else {
        AtZero(Start(nb), nb.regs);
        assert HeadedAt(map[base + BLOCK_HEADER := Header(0, 0, size - HEADER, true)], Start(nb), nb.regs, 0);
      }
    }
  }

  /** new_region: one more block, all of it free. */
  lemma AppendStep(
      hs: map<nat, Header>, ls: map<nat, BlockHeader>, bs: seq<Block>, head: nat, tail: nat, base: nat, size: nat)
    requires HeapOk(hs, ls, bs, head, tail) && IsFresh(bs, base, size)
    requires size == BLOCK_SM || size == BLOCK_MD || size == BLOCK_LG
    ensures var cs := bs + [FreshBlock(base, size)];
            && HeapOk(hs[base + BLOCK_HEADER := Header(0, 0, size - HEADER, true)], AppendHeaders(ls, base, size, tail), cs,
                      if tail == 0 then base else head, base)
            && IsAt(cs, |bs|, 0, base + BLOCK_HEADER) && Covered(cs, base + BLOCK_HEADER)
            && SumSizes(cs) == SumSizes(bs) + size && CountRegions(cs) == CountRegions(bs) + 1 && Allocs(cs) == Allocs(bs)
    ensures tail == 0 <==> bs == []
    ensures tail != 0 ==> tail in ls
  {
    hide Headed, AllHeaded, Listed, Total, Addr, AllocsIn, Allocs, SumSizes, CountRegions, BlocksOk, BasesOk, IsFresh, Covered;
    var nb := FreshBlock(base, size);
    AppendKeepsBlocks(bs, base, size);
    BasesAreOk(bs + [nb]);
    AppendKeepsListed(ls, bs, nb);
    AppendKeepsHeaded(hs, bs, base, size);
    FreshBlockOk(base, size) by { FreshFacts(bs, base, size); }
    SumsConcat(bs, [nb]);
    SumsOfOne(nb);
    AtZero(Start(nb), nb.regs);
    HeaderIsCovered(bs + [nb], |bs|, 0);
    LastIsListed(ls, bs);
    AppendEnds(bs, nb);
  }

  lemma FreshFacts(bs: seq<Block>, base: nat, size: nat)
    requires IsFresh(bs, base, size)
    ensures base > 0
  {
  }

  lemma AppendEnds(bs: seq<Block>, nb: Block)
    ensures BaseOf(bs + [nb], 0) == if bs == [] then nb.base else BaseOf(bs, 0)
    ensures BaseOf(bs + [nb], |bs|) == nb.base && (bs + [nb])[|bs|] == nb
  {
  }

  lemma LastIsListed(ls: map<nat, BlockHeader>, bs: seq<Block>)
    requires Listed(ls, bs) && BlocksOk(bs)
    ensures BaseOf(bs, |bs| - 1) == 0 <==> bs == []
    ensures bs != [] ==> BaseOf(bs, |bs| - 1) in ls
  {
    if bs != [] {
      assert BlockOk(bs[|bs| - 1]);
    }
  }

  function Without(bs: seq<Block>, k: nat): seq<Block>
    requires k < |bs|
  {
    bs[..k] + bs[k + 1..]
  }

  function UnlinkHeaders(ls: map<nat, BlockHeader>, b: nat): map<nat, BlockHeader>
    requires b in ls
  {
    var l := if ls[b].prev == 0 then ls else SetNext(ls, ls[b].prev, ls[b].next);
    if ls[b].next == 0 then l else SetBlockPrev(l, ls[b].next, ls[b].prev)
  }

  lemma UnlinkListedAt(ls: map<nat, BlockHeader>, bs: seq<Block>, k: nat, j: nat)
    requires Listed(ls, bs) && BasesOk(bs) && k < |bs| && j < |bs| - 1
    requires bs[k].base in ls && ls[bs[k].base] == BlockHeaderOf(bs, k)
    ensures var cs, ms := Without(bs, k), UnlinkHeaders(ls, bs[k].base);
            cs[j].base in ms && ms[cs[j].base] == BlockHeaderOf(cs, j)
  {
    var i := if j < k then j else j + 1;
    assert bs[i].base in ls && ls[bs[i].base] == BlockHeaderOf(bs, i);
    hide Listed, Without, UnlinkHeaders, BasesOk;
    WithoutAt(bs, k, j);
    UnlinkedAt(ls, bs[k].base, bs[i].base);
    NeighboursAt(bs, k, i);
    var ms := UnlinkHeaders(ls, bs[k].base);
    assert ms[bs[i].base].prev == if i == k + 1 then BaseOf(bs, k - 1) else BaseOf(bs, i - 1);
    assert ms[bs[i].base].next == if i + 1 == k then BaseOf(bs, k + 1) else BaseOf(bs, i + 1);
  }

  lemma UnlinkedAt(ls: map<nat, BlockHeader>, b: nat, x: nat)
    requires b in ls && x in ls
    ensures x in UnlinkHeaders(ls, b)
    ensures UnlinkHeaders(ls, b)[x] ==
              BlockHeader(if ls[b].prev != 0 && x == ls[b].prev then ls[b].next else ls[x].next,
                          if ls[b].next != 0 && x == ls[b].next then ls[b].prev else ls[x].prev, ls[x].size)
  {
  }

  lemma NeighboursAt(bs: seq<Block>, k: nat, i: nat)
    requires BasesOk(bs) && k < |bs| && i < |bs|
    ensures BaseOf(bs, k - 1) != 0 && bs[i].base == BaseOf(bs, k - 1) <==> i == k - 1
    ensures BaseOf(bs, k + 1) != 0 && bs[i].base == BaseOf(bs, k + 1) <==> i == k + 1
  {
    if k > 0 {
      assert bs[i].base == bs[k - 1].base <==> i == k - 1;
    }
    if k + 1 < |bs| {
      assert bs[i].base == bs[k + 1].base <==> i == k + 1;
    }
  }

  lemma WithoutAt(bs: seq<Block>, k: nat, j: nat)
    requires k < |bs| && j < |bs| - 1
    ensures var cs := Without(bs, k);
            && |cs| == |bs| - 1 && cs[j] == bs[if j < k then j else j + 1]
            && BaseOf(cs, j + 1) == (if j + 1 < k then BaseOf(bs, j + 1) else BaseOf(bs, j + 2))
            && BaseOf(cs, j - 1) == (if j <= k then BaseOf(bs, j - 1) else BaseOf(bs, j))
  {
  }

  lemma UnlinkKeepsListed(ls: map<nat, BlockHeader>, bs: seq<Block>, k: nat)
    requires Listed(ls, bs) && BasesOk(bs) && k < |bs|
    ensures bs[k].base in ls && ls[bs[k].base] == BlockHeaderOf(bs, k)
    ensures Listed(UnlinkHeaders(ls, bs[k].base), Without(bs, k))
  {
    assert bs[k].base in ls && ls[bs[k].base] == BlockHeaderOf(bs, k);
    hide UnlinkHeaders, BlockHeaderOf;
    forall j: nat | j < |Without(bs, k)|
      ensures var cs, ms := Without(bs, k), UnlinkHeaders(ls, bs[k].base);
              cs[j].base in ms && ms[cs[j].base] == BlockHeaderOf(cs, j)
    {
      UnlinkListedAt(ls, bs, k, j);
    }
  }

  lemma WithoutKeepsBlocks(hs: map<nat, Header>, bs: seq<Block>, k: nat)
    requires BlocksOk(bs) && AllHeaded(hs, bs) && k < |bs|
    ensures BlocksOk(Without(bs, k)) && AllHeaded(hs, Without(bs, k))
  {
    hide BlockOk, Headed;
    var cs := Without(bs, k);
    assert forall j: nat | j < |cs| :: cs[j] == bs[if j < k then j else j + 1];
  }

  lemma WithoutSums(bs: seq<Block>, k: nat)
    requires k < |bs| && |bs[k].regs| == 1 && bs[k].regs[0].free
    ensures var cs := Without(bs, k);
            SumSizes(cs) == SumSizes(bs) - bs[k].size && CountRegions(cs) == CountRegions(bs) - 1 && Allocs(cs) == Allocs(bs)
  {
    hide Total, AllocsIn, Allocs, SumSizes, CountRegions;
    assert bs == bs[..k] + [bs[k]] + bs[k + 1..];
    SumsConcat(bs[..k] + [bs[k]], bs[k + 1..]);
    SumsConcat(bs[..k], [bs[k]]);
    SumsConcat(bs[..k], bs[k + 1..]);
    SumsOfOne(bs[k]);
    assert bs[k].regs == [bs[k].regs[0]];
    TwoAllocs(Start(bs[k]), bs[k].regs[0], bs[k].regs[0]);
  }

  /** return_block_to_OS for a block that is one free region. */
  lemma RemoveStep(hs: map<nat, Header>, ls: map<nat, BlockHeader>, bs: seq<Block>, head: nat, tail: nat, k: nat)
    requires HeapOk(hs, ls, bs, head, tail) && k < |bs| && |bs[k].regs| == 1 && bs[k].regs[0].free
    ensures bs[k].base in ls && ls[bs[k].base] == BlockHeaderOf(bs, k)
    ensures ls[bs[k].base].prev != 0 <==> k > 0
    ensures ls[bs[k].base].next != 0 <==> k + 1 < |bs|
    ensures var b, cs := bs[k].base, Without(bs, k);
            && HeapOk(hs, UnlinkHeaders(ls, b), cs, if ls[b].prev == 0 then ls[b].next else head, if ls[b].next == 0 then ls[b].prev else tail)
            && SumSizes(cs) == SumSizes(bs) - bs[k].size && CountRegions(cs) == CountRegions(bs) - 1 && Allocs(cs) == Allocs(bs)
  {
    hide Headed, AllHeaded, Listed, Total, Addr, AllocsIn, Allocs, SumSizes, CountRegions, BlocksOk, UnlinkHeaders, BasesOk, Without;
    BasesAreOk(bs);
    UnlinkKeepsListed(ls, bs, k);
    WithoutKeepsBlocks(hs, bs, k);
    WithoutSums(bs, k);
    WithoutEnds(bs, k);
  }

  lemma WithoutEnds(bs: seq<Block>, k: nat)
    requires k < |bs| && BasesOk(bs)
    ensures var cs := Without(bs, k);
            && BaseOf(cs, 0) == (if k == 0 then BaseOf(bs, 1) else BaseOf(bs, 0))
            && BaseOf(cs, |cs| - 1) == (if k == |bs| - 1 then BaseOf(bs, k - 1) else BaseOf(bs, |bs| - 1))
    ensures BaseOf(bs, k - 1) != 0 <==> k > 0
    ensures BaseOf(bs, k + 1) != 0 <==> k + 1 < |bs|
  {
    var cs := Without(bs, k);
    assert |cs| == |bs| - 1 && forall j: nat | j < |cs| :: cs[j] == bs[if j < k then j else j + 1];
  }

  // ---------------------------------------------------------------- headers and data

  /** Region `(l, j)` lies wholly before or wholly behind region `(k, i)`. */
  lemma ExtentsDiffer(bs: seq<Block>, k: nat, i: nat, l: nat, j: nat)
    requires BlocksOk(bs) && k < |bs| && i < |bs[k].regs| && l < |bs| && j < |bs[l].regs| && (k != l || i != j)
    ensures var r, q := Addr(Start(bs[k]), bs[k].regs, i), Addr(Start(bs[l]), bs[l].regs, j);
            r + HEADER + bs[k].regs[i].size <= q || q + HEADER + bs[l].regs[j].size <= r
  {
    hide Total, Addr;
    if k == l {
      AddrOrder(Start(bs[k]), bs[k].regs, i, j);
    } else {
      assert BlockOk(bs[k]) && BlockOk(bs[l]) && Apart(bs[if k < l then k else l], bs[if k < l then l else k]);
      AddrOrder(Start(bs[k]), bs[k].regs, i, i);
      AddrOrder(Start(bs[l]), bs[l].regs, j, j);
    }
  }

  /** Writing the bytes of one region changes no header. */
  lemma DataKeepsHeaded(hs: map<nat, Header>, gs: map<nat, Header>, bs: seq<Block>, k: nat, i: nat, r: nat)
    requires BlocksOk(bs) && AllHeaded(hs, bs) && IsAt(bs, k, i, r)
    requires forall h: nat | h + HEADER <= r + HEADER || r + HEADER + bs[k].regs[i].size <= h ::
               (h in gs <==> h in hs) && (h in hs ==> gs[h] == hs[h])
    ensures AllHeaded(gs, bs)
  {
    hide Total, Addr;
    forall l: nat | l < |bs|
      ensures Headed(gs, Start(bs[l]), bs[l].regs)
    {
      assert Headed(hs, Start(bs[l]), bs[l].regs);
      forall j: nat | j < |bs[l].regs|
        ensures HeadedAt(gs, Start(bs[l]), bs[l].regs, j)
      {
        assert HeadedAt(hs, Start(bs[l]), bs[l].regs, j);
        if l != k || i != j {
          ExtentsDiffer(bs, k, i, l, j);
        }
      }
    }
  }

  /** A pointer belongs to one region. */
  lemma AllocIsAt(bs: seq<Block>, x: Alloc, k: nat, i: nat)
    requires BlocksOk(bs) && x in Allocs(bs) && k < |bs| && i < |bs[k].regs|
    requires x.ptr == Addr(Start(bs[k]), bs[k].regs, i) + HEADER
    ensures !bs[k].regs[i].free && x.size == bs[k].regs[i].size
  {
    hide Total, Addr, Allocs;
    var l := AllocIsInBlock(bs, x);
    var j := AllocIsRegion(Start(bs[l]), bs[l].regs, x);
    if l != k || i != j {
      ExtentsDiffer(bs, k, i, l, j);
    }
  }

  lemma RegionIsLive(bs: seq<Block>, k: nat, i: nat)
    requires k < |bs| && i < |bs[k].regs| && !bs[k].regs[i].free
    ensures Alloc(Addr(Start(bs[k]), bs[k].regs, i) + HEADER, bs[k].regs[i].size) in Allocs(bs)
  {
    RegionIsAlloc(Start(bs[k]), bs[k].regs, i);
    BlockAllocsAreAllocs(bs, k);
  }
}
