/** The malloc library of malloc.c over an address space of bytes.

    Headers and user data share the memory: writing a header destroys the bytes under it, and
    writing data destroys any header it touches.  `Valid` says that in spite of that every header
    of every chain is intact.  Pointers that a method takes are located by ghost indices: region
    `i` of block `k`.  mmap is an oracle: `mmap` is the address it would give, if any. */
module Malloc {
  import opened Common
  import opened Regions
  import opened Blocks
  import opened Neighbours

  function ByteAt(m: map<nat, nat>, a: nat): nat {
    if a in m then m[a] else 0
  }

  function Span(at: nat, n: nat): (s: set<nat>)
    ensures forall a: nat :: a in s <==> at <= a < at + n
  {
    if n == 0 then {} else Span(at, n - 1) + {at + n - 1}
  }

  /** What is under a header is no longer anybody's data. */
  function Clobbered(m: map<nat, nat>, at: nat, n: nat): map<nat, nat> {
    m - Span(at, n)
  }

  ghost predicate OnlyHeaderBytes(was: map<nat, nat>, now: map<nat, nat>, bs: seq<Block>) {
    forall a: nat | !InHeaders(bs, a) :: ByteAt(now, a) == ByteAt(was, a)
  }

  /** The bytes of these allocations are as they were. */
  ghost predicate KeptIn(was: map<nat, nat>, now: map<nat, nat>, xs: set<Alloc>) {
    forall x: Alloc, a: nat | x in xs && x.ptr <= a < x.ptr + x.size :: ByteAt(now, a) == ByteAt(was, a)
  }

  lemma HeaderBytesKeepAllocs(was: map<nat, nat>, now: map<nat, nat>, bs: seq<Block>)
    requires BlocksOk(bs) && OnlyHeaderBytes(was, now, bs)
    ensures KeptIn(was, now, Allocs(bs))
  {
    forall x: Alloc, a: nat | x in Allocs(bs) && x.ptr <= a < x.ptr + x.size
      ensures ByteAt(now, a) == ByteAt(was, a)
    {
      PayloadIsNotHeader(bs, x, a);
    }
  }

  /** ALIGN4, then the minimum. */
  function Rounded(size: nat): (r: nat)
    ensures r >= MIN_REGION && r >= size
  {
    var aligned := if size == 0 then 0 else (size - 1) / 4 * 4 + 4;
    if aligned < MIN_REGION then MIN_REGION else aligned
  }

  predicate TooLarge(size: nat) {
    size > 0 && (size - 1) / 4 * 4 + 4 + HEADER > BLOCK_LG
  }

  /** get_block_size; 0 when no block is large enough. */
  function BlockSizeFor(size: nat): nat {
    if size + HEADER <= BLOCK_SM then BLOCK_SM
    else if size + HEADER <= BLOCK_MD then BLOCK_MD
    else if size + HEADER <= BLOCK_LG then BLOCK_LG
    else 0
  }

  /** The least multiple of 4 that holds the request and is no smaller than a region may be. */
  lemma RoundedIsLeast(size: nat, n: nat)
    ensures Rounded(size) % 4 == 0 && Rounded(size) >= size && Rounded(size) >= MIN_REGION
    ensures n % 4 == 0 && n >= size && n >= MIN_REGION ==> n >= Rounded(size)
  {
  }

  /** The smallest class of blocks that holds it with a header; there is none exactly for what is too large. */
  lemma BlockSizeIsLeast(size: nat, c: nat)
    ensures var b := BlockSizeFor(size);
            && (b != 0 ==> b in {BLOCK_SM, BLOCK_MD, BLOCK_LG} && size + HEADER <= b)
            && (c in {BLOCK_SM, BLOCK_MD, BLOCK_LG} && size + HEADER <= c ==> 0 < b <= c)
    ensures size > 0 ==> (TooLarge(size) <==> BlockSizeFor(Rounded(size)) == 0)
  {
  }

  predicate Fits(g: Region, size: nat) {
    g.free && g.size >= size
  }

  /** Region `r` and its free neighbours `a` and, if it is one, `b` make `size` bytes. */
  predicate Grows(hs: map<nat, Header>, r: int, a: nat, b: nat, size: nat) {
    && r in hs && a != 0 && a in hs && hs[a].free && (b != 0 ==> b in hs && hs[b].free)
    && hs[r].size + hs[a].size + HEADER + (if b == 0 || b !in hs then 0 else hs[b].size + HEADER) >= size
  }

  /** realloc finds `size` bytes where region `r` is. */
  predicate RoomAround(hs: map<nat, Header>, r: int, size: nat) {
    r in hs && (hs[r].size >= size || Grows(hs, r, hs[r].next, 0, size) || Grows(hs, r, hs[r].prev, 0, size) || Grows(hs, r, hs[r].prev, hs[r].next, size))
  }

  /** realloc takes the region before, and what it cuts off stays beside a next one that is free, too,
      but too small to have been taken instead. */
  predicate LeavesPair(hs: map<nat, Header>, r: int, size: nat) {
    && r in hs && hs[r].size < size && !Grows(hs, r, hs[r].next, 0, size) && Grows(hs, r, hs[r].prev, 0, size)
    && hs[r].next != 0 && hs[r].next in hs && hs[hs[r].next].free && hs[hs[r].prev].size + hs[r].size >= size + MIN_REGION
  }

  /** Where realloc puts a region `r` that must grow: where it is, at the region before, or where malloc
      puts a new one. */
  ghost predicate GrownAt(hs: map<nat, Header>, bs: seq<Block>, r: nat, size: nat, mmap: Option<nat>, best: bool, p: int) {
    && r in hs
    && if Grows(hs, r, hs[r].next, 0, size) then p == r + HEADER
       else if Grows(hs, r, hs[r].prev, 0, size) || Grows(hs, r, hs[r].prev, hs[r].next, size) then p == hs[r].prev + HEADER
       else if NoFitBefore(bs, size, |bs|, 0) then mmap.Some? && p == mmap.value + BLOCK_HEADER + HEADER
       else Chosen(bs, size, best, p - HEADER)
  }

  predicate Earlier(l: nat, j: nat, k: nat, i: nat) {
    l < k || (l == k && j < i)
  }

  /** Region `r` is what malloc takes: the first that fits, or the first of the smallest. */
  ghost predicate Chosen(bs: seq<Block>, size: nat, best: bool, r: int) {
    exists k: nat, i: nat :: ChosenAt(bs, size, best, k, i) && r == Addr(Start(bs[k]), bs[k].regs, i)
  }

  ghost predicate ChosenAt(bs: seq<Block>, size: nat, best: bool, k: nat, i: nat) {
    && k < |bs| && i < |bs[k].regs| && bs[k].regs[i].free && bs[k].regs[i].size >= size
    && forall l: nat, j: nat | l < |bs| && j < |bs[l].regs| && bs[l].regs[j].free && bs[l].regs[j].size >= size ::
         if best && bs[l].regs[j].size != bs[k].regs[i].size then bs[l].regs[j].size > bs[k].regs[i].size
         else k < l || (k == l && i <= j)
  }

  ghost predicate NoFitBefore(bs: seq<Block>, size: nat, k: nat, i: nat) {
    forall l: nat, j: nat | l < |bs| && j < |bs[l].regs| && Earlier(l, j, k, i) :: !Fits(RegionAt(bs, l, j), size)
  }

  class Heap {
    var rh: map<nat, Header>          // region headers in memory
    var bh: map<nat, BlockHeader>     // block headers in memory
    var bytes: map<nat, nat>          // data in memory
    var listHead: nat                 // block_header_list
    var listTail: nat                 // block_header_tail
    var totalMmy: nat
    var currRegions: int
    var currBlocks: int
    var splitted: int
    var coalesced: int
    ghost var blocks: seq<Block>

    /** Statistics and the limit. */
    ghost predicate Counted()
      reads `totalMmy, `currBlocks, `currRegions, `splitted, `coalesced, `blocks
    {
      && totalMmy == SumSizes(blocks) < HARD_LIMIT
      && currBlocks == |blocks| && currRegions == CountRegions(blocks)
      && currRegions - currBlocks == splitted - coalesced
    }

    ghost predicate Valid()
      reads this
    {
      HeapOk(rh, bh, blocks, listHead, listTail) && Counted()
    }

    ghost function Live(): set<Alloc>
      reads this
    {
      Allocs(blocks)
    }

    constructor ()
      ensures Valid() && blocks == []
    {
      rh, bh, bytes := map[], map[], map[];
      listHead, listTail, totalMmy := 0, 0, 0;
      currRegions, currBlocks, splitted, coalesced := 0, 0, 0, 0;
      blocks := [];
    }

    // -------------------------------------------------------------- memory

    method WriteHeader(r: nat, h: Header)
      modifies `rh, `bytes
      ensures rh == old(rh)[r := h] && bytes == Clobbered(old(bytes), r, HEADER)
    {
      rh := rh[r := h];
      bytes := Clobbered(bytes, r, HEADER);
    }

    /** One byte of data; a header it falls on is gone. */
    method StoreByte(a: nat, v: nat)
      modifies `rh, `bytes
      ensures bytes == old(bytes)[a := v]
      ensures forall h: nat :: h in rh <==> h in old(rh) && !(h <= a < h + HEADER)
      ensures forall h: nat | h in rh :: rh[h] == old(rh)[h]
    {
      bytes := bytes[a := v];
      rh := rh - (if a + 1 < HEADER then Span(0, a + 1) else Span(a + 1 - HEADER, HEADER));
    }

    // -------------------------------------------------------------- split, coalesce

    /** `region->free = free`. */
    method SetFlag(r: nat, free: bool, ghost k: nat, ghost i: nat)
      requires Valid() && IsAt(blocks, k, i, r)
      modifies `rh, `bytes, `blocks
      ensures Valid() && blocks == SetRegs(old(blocks), k, SetFree(old(blocks)[k].regs, i, free)) && IsAt(blocks, k, i, r)
      ensures r in old(rh) && rh == old(rh)[r := Header(old(rh)[r].next, old(rh)[r].prev, old(rh)[r].size, free)]
      ensures OnlyHeaderBytes(old(bytes), bytes, blocks)
      ensures Live() == old(Live()) - One(r, old(blocks)[k].regs[i]) + One(r, Region(old(blocks)[k].regs[i].size, free))
    {
      hide HeapOk, Covered, Allocs, SumSizes, CountRegions, SetFree;
      FlagStep(rh, bh, blocks, listHead, listTail, k, i, r, free);
      ghost var after := SetRegs(blocks, k, SetFree(blocks[k].regs, i, free));
      WriteHeader(r, Header(rh[r].next, rh[r].prev, rh[r].size, free));
      blocks := after;
      ClobberIsCovered(old(bytes), after, r);
    }

    lemma ClobberIsCovered(was: map<nat, nat>, bs: seq<Block>, r: nat)
      requires Covered(bs, r)
      ensures OnlyHeaderBytes(was, Clobbered(was, r, HEADER), bs)
    {
    }

    /** split_region, with the back link the list needs. */
    method SplitRegion(r: nat, size: nat, ghost k: nat, ghost i: nat)
      requires Valid() && IsAt(blocks, k, i, r)
      requires MIN_REGION <= size && size + HEADER + MIN_REGION <= RegionAt(blocks, k, i).size
      modifies `rh, `bytes, `blocks, `currRegions, `splitted
      ensures Valid() && IsAt(blocks, k, i, r) && RegionAt(blocks, k, i) == Region(size, RegionAt(old(blocks), k, i).free)
      ensures blocks == SetRegs(old(blocks), k, Cut(old(blocks)[k].regs, i, size))
      ensures OnlyHeaderBytes(old(bytes), bytes, blocks)
      ensures Live() == old(Live()) - One(r, old(blocks)[k].regs[i]) + One(r, Region(size, old(blocks)[k].regs[i].free))
    {
      hide HeapOk, Covered, Allocs, SumSizes, CountRegions, Cut, IsAt;
      CutStep(rh, bh, blocks, listHead, listTail, k, i, r, size);
      CutPlace(blocks, k, i, r, size);
      ghost var after := SetRegs(blocks, k, Cut(blocks[k].regs, i, size));
      ghost var hs, b0 := rh, bytes;
      var n, h := r + HEADER + size, rh[r];
      WriteHeader(n, Header(h.next, r, h.size - size - HEADER, true));
      WriteHeader(r, Header(n, h.prev, size, h.free));
      ghost var b2 := bytes;
      assert OnlyHeaderBytes(b0, b2, after) by {
        ClobberIsCovered(b0, after, n);
        ClobberIsCovered(Clobbered(b0, n, HEADER), after, r);
      }
      if h.next != 0 {
        var m := rh[h.next];
        WriteHeader(h.next, Header(m.next, n, m.size, m.free));
        ClobberIsCovered(b2, after, h.next);
      }
      assert rh == CutHeaders(hs, r, size);
      blocks := after;
      splitted := splitted + 1;
      currRegions := currRegions + 1;
    }

    lemma CutPlace(bs: seq<Block>, k: nat, i: nat, r: nat, size: nat)
      requires IsAt(bs, k, i, r) && CanCut(bs[k].regs, i, size)
      ensures var cs := SetRegs(bs, k, Cut(bs[k].regs, i, size));
              IsAt(cs, k, i, r) && RegionAt(cs, k, i) == Region(size, RegionAt(bs, k, i).free)
    {
      CutAddr(Start(bs[k]), bs[k].regs, i, size, i);
    }

    /** coalesce_region_with_its_next. */
    method Coalesce(r: nat, ghost k: nat, ghost i: nat)
      requires Valid() && IsAt(blocks, k, i, r) && i + 1 < |blocks[k].regs|
      modifies `rh, `bytes, `blocks, `currRegions, `coalesced
      ensures r in old(rh) && old(rh)[r].next in old(rh) && old(IsAt(blocks, k, i + 1, rh[r].next))
      ensures Valid() && blocks == SetRegs(old(blocks), k, Join(old(blocks)[k].regs, i)) && IsAt(blocks, k, i, r)
      ensures rh == JoinHeaders(old(rh), r) && OnlyHeaderBytes(old(bytes), bytes, blocks)
      ensures var a, b := old(blocks)[k].regs[i], old(blocks)[k].regs[i + 1];
              Live() == old(Live()) - One(r, a) - One(old(rh)[r].next, b) + One(r, Region(a.size + b.size + HEADER, a.free))
    {
      hide HeapOk, Covered, Allocs, SumSizes, CountRegions, Join;
      JoinStep(rh, bh, blocks, listHead, listTail, k, i, r);
      ghost var after := SetRegs(blocks, k, Join(blocks[k].regs, i));
      ghost var hs, b0 := rh, bytes;
      coalesced := coalesced + 1;
      currRegions := currRegions - 1;
      var h, n := rh[r], rh[rh[r].next];
      WriteHeader(r, Header(n.next, h.prev, h.size + n.size + HEADER, h.free));
      ghost var b1 := bytes;
      ClobberIsCovered(b0, after, r);
      if n.next != 0 {
        var m := rh[n.next];
        WriteHeader(n.next, Header(m.next, r, m.size, m.free));
        ClobberIsCovered(b1, after, n.next);
      }
      assert rh == JoinHeaders(hs, r);
      blocks := after;
    }

    /** split_and_coalesce_next_regions, with the back link the list needs. */
    method ShiftBorder(r: nat, size: nat, ghost k: nat, ghost i: nat)
      requires Valid() && IsAt(blocks, k, i, r) && i + 1 < |blocks[k].regs| && blocks[k].regs[i + 1].free
      requires MIN_REGION <= size <= blocks[k].regs[i].size
      modifies `rh, `bytes, `blocks, `splitted, `coalesced
      ensures Valid() && blocks == SetRegs(old(blocks), k, Shift(old(blocks)[k].regs, i, size))
      ensures OnlyHeaderBytes(old(bytes), bytes, blocks)
      ensures Live() == old(Live()) - One(r, old(blocks)[k].regs[i]) + One(r, Region(size, old(blocks)[k].regs[i].free))
    {
      hide HeapOk, Covered, Allocs, SumSizes, CountRegions, Shift;
      ShiftStep(rh, bh, blocks, listHead, listTail, k, i, r, size);
      ghost var after := SetRegs(blocks, k, Shift(blocks[k].regs, i, size));
      ghost var hs, b0 := rh, bytes;
      coalesced := coalesced + 1;
      splitted := splitted + 1;
      var h, last, n := rh[r], rh[rh[r].next], r + HEADER + size;
      WriteHeader(n, Header(last.next, last.prev, last.size + (h.size - size), true));
      WriteHeader(r, Header(n, h.prev, size, h.free));
      ghost var b2 := bytes;
      assert OnlyHeaderBytes(b0, b2, after) by {
        ClobberIsCovered(b0, after, n);
        ClobberIsCovered(Clobbered(b0, n, HEADER), after, r);
      }
      if last.next != 0 {
        var m := rh[last.next];
        WriteHeader(last.next, Header(m.next, n, m.size, m.free));
        ClobberIsCovered(b2, after, last.next);
      }
      assert rh == ShiftHeaders(hs, r, size);
      blocks := after;
    }

    /** try_split_region: nothing happens when the rest would be too small. */
    method TrySplit(r: nat, size: nat, ghost k: nat, ghost i: nat)
      requires Valid() && IsAt(blocks, k, i, r) && MIN_REGION <= size <= RegionAt(blocks, k, i).size
      modifies `rh, `bytes, `blocks, `currRegions, `splitted
      ensures Valid() && IsAt(blocks, k, i, r) && blocks == SetRegs(old(blocks), k, SplitRegs(old(blocks)[k].regs, i, size))
      ensures var was := old(RegionAt(blocks, k, i));
              && RegionAt(blocks, k, i) == Region(if was.size < size + HEADER + MIN_REGION then was.size else size, was.free)
              && Live() == old(Live()) - One(r, was) + One(r, RegionAt(blocks, k, i))
      ensures KeptIn(old(bytes), bytes, Live())
    {
      hide HeapOk, Allocs, Counted, IsAt;
      HeaderAt(rh, bh, blocks, listHead, listTail, k, i, r);
      if rh[r].size < size + HEADER + MIN_REGION {
        OneIsLive(k, i, r);
        return;
      }
      SplitRegion(r, size, k, i);
      BytesKeepLive(old(bytes));
    }

    lemma OneIsLive(k: nat, i: nat, r: nat)
      requires IsAt(blocks, k, i, r)
      ensures One(r, RegionAt(blocks, k, i)) <= Live()
    {
      if !blocks[k].regs[i].free {
        RegionIsLive(blocks, k, i);
      }
    }

    lemma BytesKeepLive(was: map<nat, nat>)
      requires Valid() && OnlyHeaderBytes(was, bytes, blocks)
      ensures KeptIn(was, bytes, Live())
    {
      HeaderBytesKeepAllocs(was, bytes, blocks);
    }

    /** `region->free = false; try_split_region(region, size)`: the region, or its front, is handed out. */
    method Take(r: nat, size: nat, ghost k: nat, ghost i: nat)
      requires Valid() && IsAt(blocks, k, i, r) && MIN_REGION <= size <= RegionAt(blocks, k, i).size
      modifies `rh, `bytes, `blocks, `currRegions, `splitted
      ensures Valid() && IsAt(blocks, k, i, r) && size <= RegionAt(blocks, k, i).size <= old(RegionAt(blocks, k, i)).size
      ensures blocks == SetRegs(old(blocks), k, TakenRegs(old(blocks)[k].regs, i, size))
      ensures r in rh && rh[r].size == RegionAt(blocks, k, i).size < size + HEADER + MIN_REGION
      ensures Live() == old(Live()) - One(r, old(RegionAt(blocks, k, i))) + {Alloc(r + HEADER, rh[r].size)}
      ensures KeptIn(old(bytes), bytes, Live())
      ensures forall x | x in old(Live()) && x.ptr == r + HEADER :: x in One(r, old(RegionAt(blocks, k, i)))
    {
      hide HeapOk, Allocs, Counted, IsAt, KeptIn;
      ghost var was, l0, b0 := RegionAt(blocks, k, i), Live(), bytes;
      OwnAllocs(k, i, r);
      OneIsLive(k, i, r);
      SetFlag(r, false, k, i);
      assert RegionAt(blocks, k, i) == Region(was.size, false) by {
        FlagPlace(old(blocks), k, i, false);
      }
      BytesKeepLive(b0);
      ghost var l1, b1 := Live(), bytes;
      TrySplit(r, size, k, i);
      HeaderAt(rh, bh, blocks, listHead, listTail, k, i, r);
      assert l1 == l0 - One(r, was) + {Alloc(r + HEADER, was.size)};
      assert Live() == l1 - {Alloc(r + HEADER, was.size)} + {Alloc(r + HEADER, rh[r].size)};
      KeptThroughCut(b0, b1, bytes, l1, Live(), Alloc(r + HEADER, was.size), rh[r].size);
    }

    lemma FlagPlace(bs: seq<Block>, k: nat, i: nat, free: bool)
      requires k < |bs| && i < |bs[k].regs|
      ensures RegionAt(SetRegs(bs, k, SetFree(bs[k].regs, i, free)), k, i) == Region(bs[k].regs[i].size, free)
    {
    }

    /** A live allocation at this pointer is this region. */
    lemma OwnAllocs(k: nat, i: nat, r: nat)
      requires Valid() && IsAt(blocks, k, i, r)
      ensures forall x | x in Live() && x.ptr == r + HEADER :: x in One(r, RegionAt(blocks, k, i))
    {
      hide Allocs, Addr, Total, AllHeaded, Listed, Counted;
      forall x | x in Live() && x.ptr == r + HEADER
        ensures x in One(r, RegionAt(blocks, k, i))
      {
        AllocIsAt(blocks, x, k, i);
      }
    }

    lemma KeptThroughCut(
        b0: map<nat, nat>, b1: map<nat, nat>, b2: map<nat, nat>, l1: set<Alloc>, l2: set<Alloc>, x: Alloc, m: nat)
      requires KeptIn(b0, b1, l1) && KeptIn(b1, b2, l2) && x in l1 && m <= x.size && l2 == l1 - {x} + {Alloc(x.ptr, m)}
      ensures KeptIn(b0, b2, l2)
    {
      forall y: Alloc, a: nat | y in l2 && y.ptr <= a < y.ptr + y.size
        ensures ByteAt(b2, a) == ByteAt(b0, a)
      {
        assert y in l1 || (y == Alloc(x.ptr, m) && x.ptr <= a < x.ptr + x.size);
      }
    }

    // -------------------------------------------------------------- search

    lemma BlockAt(k: nat)
      requires Valid() && k < |blocks|
      ensures blocks[k].base > 0 && blocks[k].base in bh && bh[blocks[k].base] == BlockHeaderOf(blocks, k)
      ensures IsAt(blocks, k, 0, blocks[k].base + BLOCK_HEADER)
      ensures bh[blocks[k].base].next != 0 <==> k + 1 < |blocks|
    {
      assert BlockOk(blocks[k]);
      if k + 1 < |blocks| {
        assert BlockOk(blocks[k + 1]);
      }
      AtZero(Start(blocks[k]), blocks[k].regs);
    }

    lemma RegionHeader(k: nat, i: nat, r: nat)
      requires Valid() && IsAt(blocks, k, i, r)
      ensures r in rh && rh[r] == HeaderOf(Start(blocks[k]), blocks[k].regs, i) && r > 0
      ensures rh[r].next != 0 <==> i + 1 < |blocks[k].regs|
      ensures rh[r].prev != 0 <==> i > 0
      ensures rh[r].size == RegionAt(blocks, k, i).size >= MIN_REGION && rh[r].free == RegionAt(blocks, k, i).free
      ensures i + 1 < |blocks[k].regs| ==> IsAt(blocks, k, i + 1, rh[r].next)
      ensures i > 0 ==> IsAt(blocks, k, i - 1, rh[r].prev)
    {
      HeaderAt(rh, bh, blocks, listHead, listTail, k, i, r);
    }

    lemma FirstBlock()
      requires Valid()
      ensures listHead == BaseOf(blocks, 0) && (listHead != 0 <==> blocks != [])
    {
      if blocks != [] {
        BlockAt(0);
      }
    }

    /** loop_for_first_fit_region. */
    method LoopFirstFit(start: nat, size: nat, ghost k: nat) returns (r: nat, ghost i: nat)
      requires Valid() && IsAt(blocks, k, 0, start)
      ensures if r == 0 then forall j: nat | j < |blocks[k].regs| :: !Fits(RegionAt(blocks, k, j), size)
              else IsAt(blocks, k, i, r) && Fits(RegionAt(blocks, k, i), size) && forall j: nat | j < i :: !Fits(RegionAt(blocks, k, j), size)
    {
      hide Valid, IsAt;
      RegionHeader(k, 0, start);
      r := start;
      i := 0;
      while r != 0
        invariant if r == 0 then i == |blocks[k].regs| else IsAt(blocks, k, i, r) && i < |blocks[k].regs|
        invariant forall j: nat | j < i :: !Fits(RegionAt(blocks, k, j), size)
        decreases |blocks[k].regs| - i
      {
        RegionHeader(k, i, r);
        if rh[r].size >= size && rh[r].free {
          return;
        }
        IndexBelow(k, i + 1, rh[r].next);
        r := rh[r].next;
        i := i + 1;
      }
    }

    lemma IndexBelow(k: nat, i: nat, r: nat)
      ensures IsAt(blocks, k, i, r) ==> k < |blocks| && i < |blocks[k].regs|
    {
    }

    /** find_region_first_fit. */
    method FindFirstFit(size: nat) returns (r: nat, ghost k: nat, ghost i: nat)
      requires Valid()
      ensures if r == 0 then NoFitBefore(blocks, size, |blocks|, 0)
              else IsAt(blocks, k, i, r) && Fits(RegionAt(blocks, k, i), size) && NoFitBefore(blocks, size, k, i)
    {
      hide Valid, IsAt;
      FirstBlock();
      var b := listHead;
      r, k, i := 0, 0, 0;
      while b != 0
        invariant k <= |blocks| && b == BaseOf(blocks, k) && (b != 0 <==> k < |blocks|) && r == 0
        invariant NoFitBefore(blocks, size, k, 0)
        decreases |blocks| - k
      {
        BlockAt(k);
        r, i := LoopFirstFit(b + BLOCK_HEADER, size, k);
        if r != 0 {
          return;
        }
        b := bh[b].next;
        k := k + 1;
      }
    }

    /** The smallest fitting region before `(k, i)`, the first of them; none when `r` is 0. */
    ghost predicate BestBefore(size: nat, k: nat, i: nat, r: nat, bk: nat, bi: nat)
      reads this
    {
      if r == 0 then NoFitBefore(blocks, size, k, i)
      else
        && IsAt(blocks, bk, bi, r) && Fits(RegionAt(blocks, bk, bi), size) && Earlier(bk, bi, k, i)
        && forall l: nat, j: nat | l < |blocks| && j < |blocks[l].regs| && Earlier(l, j, k, i) && Fits(RegionAt(blocks, l, j), size) ::
             RegionAt(blocks, l, j).size > RegionAt(blocks, bk, bi).size ||
             (RegionAt(blocks, l, j).size == RegionAt(blocks, bk, bi).size && !Earlier(l, j, bk, bi))
    }

    /** Looking at one more region. */
    lemma BestStep(size: nat, k: nat, i: nat, curr: nat, r: nat, bk: nat, bi: nat)
      requires IsAt(blocks, k, i, curr) && curr > 0 && BestBefore(size, k, i, r, bk, bi)
      ensures if Fits(RegionAt(blocks, k, i), size) && (r == 0 || RegionAt(blocks, bk, bi).size > RegionAt(blocks, k, i).size)
              then BestBefore(size, k, i + 1, curr, k, i)
              else BestBefore(size, k, i + 1, r, bk, bi)
    {
      hide Addr;
    }

    lemma BestNextBlock(size: nat, k: nat, i: nat, r: nat, bk: nat, bi: nat)
      requires k < |blocks| && i == |blocks[k].regs| && BestBefore(size, k, i, r, bk, bi)
      ensures BestBefore(size, k + 1, 0, r, bk, bi)
    {
      hide Addr;
    }

    lemma BestIsAt(size: nat, k: nat, i: nat, r: nat, bk: nat, bi: nat)
      requires BestBefore(size, k, i, r, bk, bi) && r != 0
      ensures IsAt(blocks, bk, bi, r)
    {
    }

    /** loop_for_best_fit_region. */
    method LoopBestFit(start: nat, size: nat, best: nat, ghost k: nat, ghost bk: nat, ghost bi: nat)
      returns (r: nat, ghost rk: nat, ghost ri: nat)
      requires Valid() && IsAt(blocks, k, 0, start) && BestBefore(size, k, 0, best, bk, bi)
      ensures BestBefore(size, k + 1, 0, r, rk, ri)
    {
      hide Valid, BestBefore, IsAt;
      RegionHeader(k, 0, start);
      IndexBelow(k, 0, start);
      var curr := start;
      ghost var i := 0;
      r, rk, ri := best, bk, bi;
      while curr != 0
        invariant k < |blocks| && if curr == 0 then i == |blocks[k].regs| else IsAt(blocks, k, i, curr) && i < |blocks[k].regs|
        invariant BestBefore(size, k, i, r, rk, ri)
        decreases |blocks[k].regs| - i
      {
        RegionHeader(k, i, curr);
        BestStep(size, k, i, curr, r, rk, ri);
        if rh[curr].free && rh[curr].size >= size {
          if r != 0 {
            BestIsAt(size, k, i, r, rk, ri);
            RegionHeader(rk, ri, r);
          }
          if r == 0 || rh[r].size > rh[curr].size {
            r, rk, ri := curr, k, i;
          }
        }
        IndexBelow(k, i + 1, rh[curr].next);
        curr := rh[curr].next;
        i := i + 1;
      }
      BestNextBlock(size, k, i, r, rk, ri);
    }

    /** find_region_best_fit. */
    method FindBestFit(size: nat) returns (r: nat, ghost rk: nat, ghost ri: nat)
      requires Valid()
      ensures BestBefore(size, |blocks|, 0, r, rk, ri)
    {
      hide Valid, IsAt;
      FirstBlock();
      var b := listHead;
      ghost var k := 0;
      r, rk, ri := 0, 0, 0;
      while b != 0
        invariant k <= |blocks| && b == BaseOf(blocks, k) && (b != 0 <==> k < |blocks|)
        invariant BestBefore(size, k, 0, r, rk, ri)
        decreases |blocks| - k
      {
        BlockAt(k);
        r, rk, ri := LoopBestFit(b + BLOCK_HEADER, size, r, k, rk, ri);
        b := bh[b].next;
        k := k + 1;
      }
    }

    /** find_free_region; `best` is the build's choice of strategy. */
    method FindFreeRegion(size: nat, best: bool) returns (r: nat, ghost k: nat, ghost i: nat)
      requires Valid()
      ensures r == 0 ==> NoFitBefore(blocks, size, |blocks|, 0)
      ensures r != 0 ==> IsAt(blocks, k, i, r) && Fits(RegionAt(blocks, k, i), size) && Chosen(blocks, size, best, r)
      ensures r != 0 && !best ==> NoFitBefore(blocks, size, k, i)
      ensures r != 0 && best ==> BestBefore(size, |blocks|, 0, r, k, i)
    {
      if best {
        r, k, i := FindBestFit(size);
      } else {
        r, k, i := FindFirstFit(size);
      }
      if r != 0 {
        ThisIsChosen(size, best, r, k, i);
      }
    }

    lemma ThisIsChosen(size: nat, best: bool, r: nat, k: nat, i: nat)
      requires IsAt(blocks, k, i, r) && Fits(RegionAt(blocks, k, i), size) && r != 0
      requires if best then BestBefore(size, |blocks|, 0, r, k, i) else NoFitBefore(blocks, size, k, i)
      ensures Chosen(blocks, size, best, r)
    {
      hide Addr;
      forall l: nat, j: nat | l < |blocks| && j < |blocks[l].regs| && blocks[l].regs[j].free && blocks[l].regs[j].size >= size
        ensures if best && blocks[l].regs[j].size != blocks[k].regs[i].size then blocks[l].regs[j].size > blocks[k].regs[i].size
                else k < l || (k == l && i <= j)
      {
        assert RegionAt(blocks, l, j) == blocks[l].regs[j];
        assert Earlier(l, j, |blocks|, 0);
      }
      assert ChosenAt(blocks, size, best, k, i);
    }

    // -------------------------------------------------------------- blocks

    method WriteBlockHeader(b: nat, h: BlockHeader)
      modifies `bh, `bytes
      ensures bh == old(bh)[b := h] && bytes == Clobbered(old(bytes), b, BLOCK_HEADER)
    {
      bh := bh[b := h];
      bytes := Clobbered(bytes, b, BLOCK_HEADER);
    }

    lemma BlockClobberIsCovered(was: map<nat, nat>, bs: seq<Block>, k: nat)
      requires k < |bs|
      ensures OnlyHeaderBytes(was, Clobbered(was, bs[k].base, BLOCK_HEADER), bs)
    {
      forall a: nat | bs[k].base <= a < bs[k].base + BLOCK_HEADER
        ensures InHeaders(bs, a)
      {
        assert bs[k].base <= a < Start(bs[k]);
      }
    }

    /** append_block. */
    method AppendBlock(base: nat, size: nat)
      requires IsFresh(blocks, base, size) && Listed(bh, blocks) && BlocksOk(blocks)
      requires listHead == BaseOf(blocks, 0) && listTail == BaseOf(blocks, |blocks| - 1)
      modifies `bh, `bytes, `listHead, `listTail
      ensures bh == AppendHeaders(old(bh), base, size, old(listTail)) && listTail == base
      ensures listHead == if old(listTail) == 0 then base else old(listHead)
      ensures OnlyHeaderBytes(old(bytes), bytes, blocks + [FreshBlock(base, size)])
    {
      hide BlocksOk, Listed, IsFresh;
      ghost var after := blocks + [FreshBlock(base, size)];
      LastIsListed(bh, blocks);
      BlockClobberIsCovered(bytes, after, |blocks|);
      WriteBlockHeader(base, BlockHeader(0, listTail, size));
      if listTail == 0 {
        listHead := base;
      } else {
        BlockClobberIsCovered(bytes, after, |blocks| - 1);
        var t := bh[listTail];
        WriteBlockHeader(listTail, BlockHeader(base, t.prev, t.size));
      }
      listTail := base;
    }

    /** new_block and new_region. */
    method NewRegion(size: nat, mmap: Option<nat>) returns (r: nat)
      requires Valid() && (mmap.Some? ==> IsFresh(blocks, mmap.value, BlockSizeFor(size)))
      modifies `rh, `bh, `bytes, `listHead, `listTail, `totalMmy, `currRegions, `currBlocks, `blocks
      ensures Valid() && Live() == old(Live())
      ensures r == 0 <==> BlockSizeFor(size) == 0 || old(totalMmy) + BlockSizeFor(size) >= HARD_LIMIT || mmap.None?
      ensures r == 0 ==> unchanged(this)
      ensures r != 0 ==> mmap.Some? && blocks == old(blocks) + [FreshBlock(mmap.value, BlockSizeFor(size))]
      ensures r != 0 ==> r == mmap.value + BLOCK_HEADER
      ensures r != 0 ==> IsAt(blocks, |old(blocks)|, 0, r) && Fits(RegionAt(blocks, |old(blocks)|, 0), size)
      ensures KeptIn(old(bytes), bytes, Live())
    {
      hide HeapOk, Allocs, SumSizes, CountRegions, IsAt, KeptIn;
      KeptRefl(bytes, Live());
      var blockSize := BlockSizeFor(size);
      if blockSize == 0 || totalMmy + blockSize >= HARD_LIMIT || mmap.None? {
        return 0;
      }
      MapBlock(mmap.value, blockSize);
      r := mmap.value + BLOCK_HEADER;
    }

    /** The rest of new_block and new_region, once mmap has given `base`. */
    method MapBlock(base: nat, size: nat)
      requires Valid() && IsFresh(blocks, base, size) && (size == BLOCK_SM || size == BLOCK_MD || size == BLOCK_LG)
      requires totalMmy + size < HARD_LIMIT
      modifies `rh, `bh, `bytes, `listHead, `listTail, `totalMmy, `currRegions, `currBlocks, `blocks
      ensures Valid() && Live() == old(Live()) && blocks == old(blocks) + [FreshBlock(base, size)]
      ensures IsAt(blocks, |old(blocks)|, 0, base + BLOCK_HEADER) && KeptIn(old(bytes), bytes, Live())
    {
      hide HeapOk, Allocs, SumSizes, CountRegions, IsAt, KeptIn, Covered, AppendHeaders, OnlyHeaderBytes, IsFresh, BaseOf;
      ghost var b0, after := bytes, blocks + [FreshBlock(base, size)];
      AppendStep(rh, bh, blocks, listHead, listTail, base, size);
      FreshFacts(blocks, base, size);
      HeapParts();
      AppendBlock(base, size);
      ghost var b1 := bytes;
      ClobberIsCovered(b1, after, base + BLOCK_HEADER);
      WriteHeader(base + BLOCK_HEADER, Header(0, 0, size - HEADER, true));
      OnlyHeaderBytesTrans(b0, b1, bytes, after);
      CountBlock(size, after);
      BytesKeepLive(b0);
    }

    /** The counters of new_block and new_region. */
    method CountBlock(size: nat, ghost after: seq<Block>)
      requires Counted() && SumSizes(after) == SumSizes(blocks) + size < HARD_LIMIT && CountRegions(after) == CountRegions(blocks) + 1
      requires |after| == |blocks| + 1
      modifies `totalMmy, `currRegions, `currBlocks, `blocks
      ensures Counted() && blocks == after
    {
      totalMmy := totalMmy + size;
      currBlocks := currBlocks + 1;
      currRegions := currRegions + 1;
      blocks := after;
    }

    lemma HeapParts()
      requires HeapOk(rh, bh, blocks, listHead, listTail)
      ensures Listed(bh, blocks) && BlocksOk(blocks) && listHead == BaseOf(blocks, 0) && listTail == BaseOf(blocks, |blocks| - 1)
    {
    }

    lemma KeptRefl(b: map<nat, nat>, l: set<Alloc>)
      ensures KeptIn(b, b, l)
    {
    }

    lemma OnlyHeaderBytesTrans(b0: map<nat, nat>, b1: map<nat, nat>, b2: map<nat, nat>, bs: seq<Block>)
      requires OnlyHeaderBytes(b0, b1, bs) && OnlyHeaderBytes(b1, b2, bs)
      ensures OnlyHeaderBytes(b0, b2, bs)
    {
    }

    /** The list surgery of return_block_to_OS. */
    method UnlinkBlock(b: nat, ghost k: nat)
      requires Valid() && k < |blocks| && b == blocks[k].base
      modifies `bh, `bytes, `listHead, `listTail
      ensures b in old(bh) && old(bh)[b] == BlockHeaderOf(blocks, k) && bh == UnlinkHeaders(old(bh), b)
      ensures listHead == if old(bh)[b].prev == 0 then old(bh)[b].next else old(listHead)
      ensures listTail == if old(bh)[b].next == 0 then old(bh)[b].prev else old(listTail)
      ensures OnlyHeaderBytes(old(bytes), bytes, blocks)
    {
      hide Valid, OnlyHeaderBytes, Clobbered;
      BlockNeighbours(k);
      ghost var b0, ls := bytes, bh;
      var h := bh[b];
      OnlyHeaderBytesRefl(b0, blocks);
      if h.prev != 0 {
        var p := bh[h.prev];
        BlockClobberIsCovered(b0, blocks, k - 1);
        WriteBlockHeader(h.prev, BlockHeader(h.next, p.prev, p.size));
      } else {
        listHead := h.next;
      }
      ghost var b1 := bytes;
      OnlyHeaderBytesRefl(b1, blocks);
      if h.next != 0 {
        var n := bh[h.next];
        BlockClobberIsCovered(b1, blocks, k + 1);
        WriteBlockHeader(h.next, BlockHeader(n.next, h.prev, n.size));
      } else {
        listTail := h.prev;
      }
      OnlyHeaderBytesTrans(b0, b1, bytes, blocks);
      assert bh == UnlinkHeaders(ls, b);
    }

    /** return_block_to_OS: the pages are gone, with whatever was in them. */
    method ReturnBlock(b: nat, ghost k: nat)
      requires Valid() && k < |blocks| && b == blocks[k].base && |blocks[k].regs| == 1 && blocks[k].regs[0].free
      modifies `bh, `bytes, `listHead, `listTail, `totalMmy, `currRegions, `currBlocks, `blocks
      ensures Valid() && blocks == Without(old(blocks), k) && Live() == old(Live())
      ensures KeptIn(old(bytes), bytes, Live())
    {
      hide HeapOk, Allocs, SumSizes, CountRegions, KeptIn, Without, OnlyHeaderBytes, Clobbered, UnlinkHeaders,
           BlocksOk, BlockHeaderOf, BaseOf, Listed;
      ghost var was, after, b0 := blocks, Without(blocks, k), bytes;
      RemoveStep(rh, bh, blocks, listHead, listTail, k);
      HeapParts();
      WithoutLength(was, k);
      SizeInHeader(k);
      var size := bh[b].size;
      UnlinkBlock(b, k);
      UnlinkBytes(was, k, b0, bytes);
      bytes := Clobbered(bytes, b, size + BLOCK_HEADER);
      DropBlock(size, after);
    }

    lemma SizeInHeader(k: nat)
      requires Valid() && k < |blocks|
      ensures blocks[k].base in bh && bh[blocks[k].base].size == blocks[k].size
    {
      BlockAt(k);
    }

    /** The counters of return_block_to_OS. */
    method DropBlock(size: nat, ghost after: seq<Block>)
      requires Counted() && SumSizes(after) == SumSizes(blocks) - size && CountRegions(after) == CountRegions(blocks) - 1
      requires |after| == |blocks| - 1
      modifies `totalMmy, `currRegions, `currBlocks, `blocks
      ensures Counted() && blocks == after
    {
      currBlocks := currBlocks - 1;
      currRegions := currRegions - 1;
      totalMmy := totalMmy - size;
      blocks := after;
    }

    lemma WithoutLength(bs: seq<Block>, k: nat)
      requires k < |bs|
      ensures |Without(bs, k)| == |bs| - 1
    {
    }

    /** The neighbours of a block in the list are in memory. */
    lemma BlockNeighbours(k: nat)
      requires Valid() && k < |blocks|
      ensures blocks[k].base in bh && bh[blocks[k].base] == BlockHeaderOf(blocks, k)
      ensures k > 0 ==> blocks[k - 1].base in bh && blocks[k - 1].base > 0
      ensures k + 1 < |blocks| ==> blocks[k + 1].base in bh && blocks[k + 1].base > 0
      ensures k > 0 && k + 1 < |blocks| ==> blocks[k - 1].base != blocks[k + 1].base
    {
      BlockAt(k);
      if k > 0 { BlockAt(k - 1); }
      if k + 1 < |blocks| { BlockAt(k + 1); }
      BasesAreOk(blocks);
    }

    /** Dropping a free block drops nobody's data. */
    lemma UnlinkBytes(bs: seq<Block>, k: nat, b0: map<nat, nat>, b2: map<nat, nat>)
      requires BlocksOk(bs) && k < |bs| && |bs[k].regs| == 1 && bs[k].regs[0].free && OnlyHeaderBytes(b0, b2, bs)
      ensures KeptIn(b0, Clobbered(b2, bs[k].base, bs[k].size + BLOCK_HEADER), Allocs(bs))
    {
      hide Allocs, Total, Addr, Clobbered, OnlyHeaderBytes, BlocksOk;
      HeaderBytesKeepAllocs(b0, b2, bs);
      forall x: Alloc, a: nat | x in Allocs(bs) && x.ptr <= a < x.ptr + x.size
        ensures ByteAt(Clobbered(b2, bs[k].base, bs[k].size + BLOCK_HEADER), a) == ByteAt(b0, a)
      {
        AllocIsElsewhere(bs, k, x);
        ClobberedAt(b2, bs[k].base, bs[k].size + BLOCK_HEADER, a);
      }
    }

    lemma OnlyHeaderBytesRefl(b: map<nat, nat>, bs: seq<Block>)
      ensures OnlyHeaderBytes(b, b, bs)
    {
    }

    lemma ClobberedAt(m: map<nat, nat>, at: nat, n: nat, a: nat)
      requires !(at <= a < at + n)
      ensures ByteAt(Clobbered(m, at, n), a) == ByteAt(m, a)
    {
    }

    /** No allocation lives in a free block. */
    lemma AllocIsElsewhere(bs: seq<Block>, k: nat, x: Alloc)
      requires BlocksOk(bs) && k < |bs| && |bs[k].regs| == 1 && bs[k].regs[0].free && x in Allocs(bs)
      ensures x.ptr + x.size <= bs[k].base || End(bs[k]) <= x.ptr
    {
      hide Total;
      var l := AllocIsInBlock(bs, x);
      assert bs[k].regs == [bs[k].regs[0]];
      TwoAllocs(Start(bs[k]), bs[k].regs[0], bs[k].regs[0]);
      assert l != k && BlockOk(bs[l]);
      AllocsInside(Start(bs[l]), bs[l].regs, x);
      assert Apart(bs[if l < k then l else k], bs[if l < k then k else l]);
    }

    // -------------------------------------------------------------- malloc, calloc, free

    /** Where a live pointer lies. */
    lemma Locate(ptr: nat) returns (k: nat, i: nat)
      requires Valid() && exists n: nat :: Alloc(ptr, n) in Live()
      ensures ptr >= HEADER && IsAt(blocks, k, i, ptr - HEADER) && !RegionAt(blocks, k, i).free
      ensures Alloc(ptr, RegionAt(blocks, k, i).size) in Live()
      ensures forall x | x in Live() && x.ptr == ptr :: x == Alloc(ptr, RegionAt(blocks, k, i).size)
    {
      hide Allocs, Addr, Total, AllHeaded, Listed, Counted;
      var n: nat :| Alloc(ptr, n) in Live();
      k := AllocIsInBlock(blocks, Alloc(ptr, n));
      i := AllocIsRegion(Start(blocks[k]), blocks[k].regs, Alloc(ptr, n));
      OwnAllocs(k, i, ptr - HEADER);
    }

    lemma KeptTrans(b0: map<nat, nat>, b1: map<nat, nat>, b2: map<nat, nat>, l: set<Alloc>, m: set<Alloc>)
      requires KeptIn(b0, b1, l) && KeptIn(b1, b2, m)
      ensures KeptIn(b0, b2, l * m)
    {
    }

    /** No live allocation starts at a free region. */
    lemma FreeIsNotLive(k: nat, i: nat, r: nat)
      requires Valid() && IsAt(blocks, k, i, r) && RegionAt(blocks, k, i).free
      ensures forall x | x in Live() :: x.ptr != r + HEADER
    {
      OwnAllocs(k, i, r);
    }

    /** No free region is large enough, and there is no new block: the limit is reached, or mmap fails. */
    ghost predicate NoMemoryFor(size: nat, mmap: Option<nat>)
      reads this
    {
      NoFitBefore(blocks, Rounded(size), |blocks|, 0) && (totalMmy + BlockSizeFor(Rounded(size)) >= HARD_LIMIT || mmap.None?)
    }

    /** malloc.  `mmap` is the address a fresh block would be given. */
    method Malloc(size: nat, mmap: Option<nat>, best: bool) returns (p: nat)
      requires Valid() && (mmap.Some? ==> IsFresh(blocks, mmap.value, BlockSizeFor(Rounded(size))))
      modifies this
      ensures Valid()
      ensures p == 0 <==> size == 0 || TooLarge(size) || old(NoMemoryFor(size, mmap))
      ensures p == 0 ==> unchanged(this)
      ensures p != 0 ==> p >= HEADER && p - HEADER in rh && rh[p - HEADER].size >= size
      ensures p != 0 ==> rh[p - HEADER].size < Rounded(size) + HEADER + MIN_REGION
      ensures p != 0 ==> if old(NoFitBefore(blocks, Rounded(size), |blocks|, 0)) then mmap.Some? && p == mmap.value + BLOCK_HEADER + HEADER
                         else Chosen(old(blocks), Rounded(size), best, p - HEADER)
      ensures p != 0 ==> Live() == old(Live()) + {Alloc(p, rh[p - HEADER].size)} && forall x | x in old(Live()) :: x.ptr != p
      ensures Tidy(old(blocks)) ==> Tidy(blocks)
      ensures KeptIn(old(bytes), bytes, old(Live()))
    {
      hide HeapOk, Allocs, Counted, IsAt, KeptIn, NoFitBefore, IsFresh, Tidy, TakenRegs;
      ghost var bs := blocks;
      ghost var l0, b0 := Live(), bytes;
      KeptRefl(b0, l0);
      if size == 0 || TooLarge(size) {
        return 0;
      }
      var n := Rounded(size);
      RoundedFits(size);
      ghost var k, i;
      p, k, i := FindFreeRegion(n, best);
      if p == 0 {
        k, i := |blocks|, 0;
        p := NewRegion(n, mmap);
        if p == 0 {
          return;
        }
      } else {
        FitIsFound(n, k, i, p);
      }
      ghost var b1 := bytes;
      IndexBelow(k, i, p);
      HandedOutIsTidy(bs, blocks, k, i, n);
      FreeIsNotLive(k, i, p);
      RegionHeader(k, i, p);
      Take(p, n, k, i);
      KeptTrans(b0, b1, bytes, l0, Live());
      p := p + HEADER;
      assert l0 * Live() == l0;
    }

    /** A free region that was found or is a new block. */
    lemma HandedOutIsTidy(bs: seq<Block>, cs: seq<Block>, k: nat, i: nat, size: nat)
      requires k < |cs| && i < |cs[k].regs| && cs[k].regs[i].free
      requires cs == bs || (k == |bs| && |cs| == k + 1 && cs[..k] == bs && |cs[k].regs| == 1)
      ensures Tidy(bs) ==> Tidy(SetRegs(cs, k, TakenRegs(cs[k].regs, i, size)))
    {
      hide TakenRegs;
      if Tidy(bs) {
        assert forall l: nat | l < |bs| :: TidyBlock(bs[l]) && bs[l] == cs[..|bs|][l];
        TakenIsTidy(cs, k, i, size);
      }
    }

    lemma RoundedFits(size: nat)
      requires size > 0 && !TooLarge(size)
      ensures BlockSizeFor(Rounded(size)) > 0
    {
    }

    lemma FitIsFound(size: nat, k: nat, i: nat, r: nat)
      requires IsAt(blocks, k, i, r) && Fits(RegionAt(blocks, k, i), size)
      ensures !NoFitBefore(blocks, size, |blocks|, 0)
    {
      assert Earlier(k, i, |blocks|, 0);
    }

    /** The bytes `[at, at + n)` hold `v`; the others are as they were. */
    ghost predicate Filled(was: map<nat, nat>, now: map<nat, nat>, at: nat, n: nat, v: nat) {
      forall a: nat :: ByteAt(now, a) == if at <= a < at + n then v else ByteAt(was, a)
    }

    lemma FilledStep(was: map<nat, nat>, now: map<nat, nat>, at: nat, n: nat, v: nat)
      requires Filled(was, now, at, n, v)
      ensures Filled(was, now[at + n := v], at, n + 1, v)
    {
      var m := now[at + n := v];
      forall a: nat
        ensures ByteAt(m, a) == if at <= a < at + n + 1 then v else ByteAt(was, a)
      {
        assert a != at + n ==> ByteAt(m, a) == ByteAt(now, a);
      }
    }

    /** set_mem over one region. */
    method SetMem(ptr: nat, v: nat, n: nat, ghost k: nat, ghost i: nat)
      requires Valid() && ptr >= HEADER && IsAt(blocks, k, i, ptr - HEADER) && n <= RegionAt(blocks, k, i).size
      modifies `bytes, `rh
      ensures Valid() && ptr - HEADER in old(rh) && ptr - HEADER in rh && rh[ptr - HEADER] == old(rh)[ptr - HEADER]
      ensures Filled(old(bytes), bytes, ptr, n, v)
    {
      hide HeapOk, Counted;
      ghost var hs, b0 := rh, bytes;
      for j := 0 to n
        invariant Counted() && SameElsewhere(hs, rh, ptr, n) && Filled(b0, bytes, ptr, j, v)
      {
        FilledStep(b0, bytes, ptr, j, v);
        StoreByte(ptr + j, v);
      }
      DataKeepsHeap(hs, rh, bh, blocks, listHead, listTail, k, i, ptr - HEADER, n);
    }

    /** Headers off the bytes `[at, at + n)` are as they were. */
    ghost predicate SameElsewhere(hs: map<nat, Header>, gs: map<nat, Header>, at: nat, n: nat) {
      forall h: nat | h + HEADER <= at || at + n <= h :: (h in gs <==> h in hs) && (h in hs ==> gs[h] == hs[h])
    }

    /** Data inside a region leaves the heap in order. */
    lemma DataKeepsHeap(
        hs: map<nat, Header>, gs: map<nat, Header>, ls: map<nat, BlockHeader>, bs: seq<Block>, head: nat, tail: nat,
        k: nat, i: nat, r: nat, n: nat)
      requires HeapOk(hs, ls, bs, head, tail) && IsAt(bs, k, i, r) && n <= RegionAt(bs, k, i).size
      requires SameElsewhere(hs, gs, r + HEADER, n)
      ensures HeapOk(gs, ls, bs, head, tail) && r in gs && r in hs && gs[r] == hs[r]
    {
      hide Addr, Total, Headed;
      DataKeepsHeaded(hs, gs, bs, k, i, r);
      HeaderAt(hs, ls, bs, head, tail, k, i, r);
    }

    /** calloc; `sizeMax` is the largest size_t. */
    method Calloc(nmemb: nat, size: nat, sizeMax: nat, mmap: Option<nat>, best: bool) returns (p: nat)
      requires Valid() && (mmap.Some? ==> IsFresh(blocks, mmap.value, BlockSizeFor(Rounded(nmemb * size))))
      modifies this
      ensures Valid()
      ensures p == 0 <==>
                (size != 0 && nmemb > sizeMax / size) || nmemb * size == 0 || TooLarge(nmemb * size) || old(NoMemoryFor(nmemb * size, mmap))
      ensures p == 0 ==> unchanged(this)
      ensures p != 0 ==> p >= HEADER && p - HEADER in rh && rh[p - HEADER].size >= nmemb * size
      ensures p != 0 ==> rh[p - HEADER].size < Rounded(nmemb * size) + HEADER + MIN_REGION
      ensures p != 0 ==> Live() == old(Live()) + {Alloc(p, rh[p - HEADER].size)} && forall x | x in old(Live()) :: x.ptr != p
      ensures p != 0 ==> forall a: nat | p <= a < p + rh[p - HEADER].size :: ByteAt(bytes, a) == 0
      ensures Tidy(old(blocks)) ==> Tidy(blocks)
      ensures KeptIn(old(bytes), bytes, old(Live()))
    {
      hide HeapOk, Allocs, Counted, IsAt, KeptIn, NoFitBefore, IsFresh, BlockSizeFor, Rounded;
      ghost var l0, b0 := Live(), bytes;
      KeptRefl(b0, l0);
      if size != 0 && nmemb > sizeMax / size {
        return 0;
      }
      assert size * nmemb == nmemb * size;
      p := Malloc(nmemb * size, mmap, best);
      if p == 0 {
        return;
      }
      ghost var b1, x := bytes, Alloc(p, rh[p - HEADER].size);
      assert x in Live();
      ghost var k, i := Locate(p);
      RegionHeader(k, i, p - HEADER);
      SetMem(p, 0, rh[p - HEADER].size, k, i);
      assert forall a: nat | p <= a < p + x.size :: ByteAt(bytes, a) == 0;
      FilledKeepsOthers(b1, bytes, x, x.size, 0);
      KeptTrans(b0, b1, bytes, l0, Live() - {x});
      assert l0 * (Live() - {x}) == l0;
    }

    /** Filling one allocation leaves the others alone. */
    lemma FilledKeepsOthers(was: map<nat, nat>, now: map<nat, nat>, x: Alloc, n: nat, v: nat)
      requires Valid() && x in Live() && n <= x.size && Filled(was, now, x.ptr, n, v)
      ensures KeptIn(was, now, Live() - {x})
    {
      hide Allocs, Filled, AllHeaded, Listed, Counted;
      forall y: Alloc, a: nat | y in Live() - {x} && y.ptr <= a < y.ptr + y.size
        ensures ByteAt(now, a) == ByteAt(was, a)
      {
        LiveAllocationsAreDisjoint(blocks, x, y);
        FilledAt(was, now, x.ptr, n, v, a);
      }
    }

    lemma FilledAt(was: map<nat, nat>, now: map<nat, nat>, at: nat, n: nat, v: nat, a: nat)
      requires Filled(was, now, at, n, v)
      ensures ByteAt(now, a) == if at <= a < at + n then v else ByteAt(was, a)
    {
    }

    lemma KeptOn(b0: map<nat, nat>, b1: map<nat, nat>, b2: map<nat, nat>, l: set<Alloc>)
      requires KeptIn(b0, b1, l) && KeptIn(b1, b2, l)
      ensures KeptIn(b0, b2, l)
    {
    }

    /** Joining two free regions is nobody's business. */
    method CoalesceFree(r: nat, ghost k: nat, ghost i: nat)
      requires Valid() && IsAt(blocks, k, i, r) && i + 1 < |blocks[k].regs| && blocks[k].regs[i].free && blocks[k].regs[i + 1].free
      modifies `rh, `bytes, `blocks, `currRegions, `coalesced
      ensures Valid() && IsAt(blocks, k, i, r) && RegionAt(blocks, k, i).free && Live() == old(Live())
      ensures blocks == SetRegs(old(blocks), k, Join(old(blocks)[k].regs, i))
      ensures KeptIn(old(bytes), bytes, Live())
    {
      hide HeapOk, Allocs, Counted, KeptIn;
      RegionHeader(k, i, r);
      RegionHeader(k, i + 1, rh[r].next);
      JoinPlace(blocks, k, i, r);
      Coalesce(r, k, i);
      BytesKeepLive(old(bytes));
      assert Live() == old(Live());
    }

    /** try_coalesce_regions, on a region that has just been freed. */
    method TryCoalesce(r: nat, ghost k: nat, ghost i: nat) returns (q: nat, ghost j: nat)
      requires Valid() && IsAt(blocks, k, i, r) && RegionAt(blocks, k, i).free
      modifies `rh, `bytes, `blocks, `currRegions, `coalesced
      ensures Valid() && IsAt(blocks, k, j, q) && RegionAt(blocks, k, j).free && Live() == old(Live())
      ensures blocks == SetRegs(old(blocks), k, JoinedRegs(old(blocks)[k].regs, i))
      ensures KeptIn(old(bytes), bytes, Live())
    {
      hide HeapOk, Allocs, Counted, Addr, KeptIn;
      ghost var l0, b0 := Live(), bytes;
      KeptRefl(b0, l0);
      RegionHeader(k, i, r);
      q, j := r, i;
      if rh[q].next != 0 {
        RegionHeader(k, i + 1, rh[q].next);
        if rh[rh[q].next].free {
          CoalesceFree(q, k, i);
        }
      }
      ghost var b1 := bytes;
      RegionHeader(k, i, q);
      if rh[q].prev != 0 {
        RegionHeader(k, i - 1, rh[q].prev);
        if rh[rh[q].prev].free {
          q, j := rh[q].prev, i - 1;
          CoalesceFree(q, k, j);
          KeptOn(b0, b1, bytes, l0);
        }
      }
    }

    /** What stands at and around a joined region. */
    lemma JoinPlace(bs: seq<Block>, k: nat, i: nat, r: nat)
      requires IsAt(bs, k, i, r) && i + 1 < |bs[k].regs|
      ensures var cs, a, b := SetRegs(bs, k, Join(bs[k].regs, i)), RegionAt(bs, k, i), RegionAt(bs, k, i + 1);
              && RegionAt(cs, k, i) == Region(a.size + b.size + HEADER, a.free)
              && RegionAt(cs, k, i + 1) == RegionAt(bs, k, i + 2)
              && (i + 2 < |bs[k].regs| <==> i + 1 < |cs[k].regs|)
              && |cs| == |bs| && k < |bs|
    {
    }

    /** free, for a pointer the caller owns. */
    method Free(ptr: nat)
      requires Valid() && (ptr != 0 ==> exists n: nat :: Alloc(ptr, n) in Live())
      modifies this
      ensures Valid()
      ensures ptr == 0 ==> unchanged(this)
      ensures ptr != 0 ==> forall x :: x in Live() <==> x in old(Live()) && x.ptr != ptr
      ensures ptr != 0 ==> ptr >= HEADER && exists k: nat, i: nat :: IsAt(old(blocks), k, i, ptr - HEADER) && blocks == Freed(old(blocks), k, i)
      ensures Tidy(old(blocks)) ==> Tidy(blocks)
      ensures KeptIn(old(bytes), bytes, Live())
    {
      hide HeapOk, Allocs, IsAt, KeptIn, Counted, SumSizes, Tidy, Freed, JoinedRegs, SetFree;
      KeptRefl(bytes, Live());
      if ptr == 0 {
        return;
      }
      ghost var l0, b0, bs := Live(), bytes, blocks;
      ghost var k, i := Locate(ptr);
      IndexBelow(k, i, ptr - HEADER);
      var r := ptr - HEADER;
      SetFlag(r, true, k, i);
      FlagPlace(old(blocks), k, i, true) by {
        IndexBelow(k, i, r);
      }
      BytesKeepLive(b0);
      ghost var b1, l1 := bytes, Live();
      ghost var j;
      r, j := TryCoalesce(r, k, i);
      KeptOn(b0, b1, bytes, l1);
      RegionHeader(k, j, r);
      IndexBelow(k, j, r);
      FreedIs(bs, k, i);
      if rh[r].prev == 0 && rh[r].next == 0 && rh[r].free {
        ghost var b2 := bytes;
        OnlyRegion(k, j, r);
        BlockAt(k);
        ReturnBlock(r - BLOCK_HEADER, k);
        KeptOn(b0, b2, bytes, l1);
      }
      assert blocks == Freed(bs, k, i);
    }

    lemma FreedIs(bs: seq<Block>, k: nat, i: nat)
      requires k < |bs| && i < |bs[k].regs|
      ensures |SetFree(bs[k].regs, i, true)| == |bs[k].regs|
      ensures var regs := JoinedRegs(SetFree(bs[k].regs, i, true), i);
              Freed(bs, k, i) == if |regs| == 1 then Without(SetRegs(bs, k, regs), k) else SetRegs(bs, k, regs)
      ensures Tidy(bs) ==> Tidy(Freed(bs, k, i))
    {
      if Tidy(bs) {
        FreedIsTidy(bs, k, i);
      }
    }

    lemma OnlyRegion(k: nat, j: nat, r: nat)
      requires Valid() && IsAt(blocks, k, j, r) && r in rh && rh[r].prev == 0 && rh[r].next == 0 && rh[r].free
      ensures k < |blocks| && |blocks[k].regs| == 1 && blocks[k].regs[0].free && r == Start(blocks[k])
    {
      RegionHeader(k, j, r);
      AtZero(Start(blocks[k]), blocks[k].regs);
    }

    // -------------------------------------------------------------- realloc

    /** `[dest, dest + n)` holds what `[src, src + n)` held; everything else is as it was. */
    ghost predicate Moved(was: map<nat, nat>, now: map<nat, nat>, dest: nat, src: nat, n: nat) {
      && (forall a: nat | dest <= a < dest + n :: ByteAt(now, a) == ByteAt(was, src + (a - dest)))
      && (forall a: nat | !(dest <= a < dest + n) :: ByteAt(now, a) == ByteAt(was, a))
    }

    /** One more byte of a forward copy that goes down or between disjoint places. */
    lemma MovedStep(was: map<nat, nat>, now: map<nat, nat>, dest: nat, src: nat, j: nat)
      requires Moved(was, now, dest, src, j) && (dest <= src || src + j < dest)
      ensures Moved(was, now[dest + j := ByteAt(now, src + j)], dest, src, j + 1)
    {
      var m := now[dest + j := ByteAt(now, src + j)];
      forall a: nat
        ensures dest <= a < dest + j + 1 ==> ByteAt(m, a) == ByteAt(was, src + (a - dest))
        ensures !(dest <= a < dest + j + 1) ==> ByteAt(m, a) == ByteAt(was, a)
      {
        assert a != dest + j ==> ByteAt(m, a) == ByteAt(now, a);
      }
    }

    /** move_data into one region: byte by byte, upwards. */
    method MoveData(dest: nat, src: nat, n: nat, ghost k: nat, ghost i: nat)
      requires Valid() && dest >= HEADER && IsAt(blocks, k, i, dest - HEADER) && n <= RegionAt(blocks, k, i).size
      requires dest <= src || src + n <= dest
      modifies `bytes, `rh
      ensures Valid() && Moved(old(bytes), bytes, dest, src, n)
    {
      hide HeapOk, Counted, Moved;
      ghost var hs, b0 := rh, bytes;
      MovedNothing(b0, dest, src);
      for j := 0 to n
        invariant Counted() && SameElsewhere(hs, rh, dest, n) && Moved(b0, bytes, dest, src, j)
      {
        MovedStep(b0, bytes, dest, src, j);
        StoreByte(dest + j, ByteAt(bytes, src + j));
      }
      DataKeepsHeap(hs, rh, bh, blocks, listHead, listTail, k, i, dest - HEADER, n);
    }

    lemma MovedNothing(b: map<nat, nat>, dest: nat, src: nat)
      ensures Moved(b, b, dest, src, 0)
    {
    }

    /** The allocation `(ptr, n)` is now `(q, m)`, with its bytes; the others are untouched. */
    ghost predicate Resized(l0: set<Alloc>, l1: set<Alloc>, b0: map<nat, nat>, b1: map<nat, nat>, x: Alloc, y: Alloc) {
      && l1 == l0 - {x} + {y}
      && KeptIn(b0, b1, l0 - {x})
      && forall a: nat | y.ptr <= a < y.ptr + x.size && a < y.ptr + y.size :: ByteAt(b1, a) == ByteAt(b0, x.ptr + (a - y.ptr))
    }

    /** handle_realloc_that_requires_less_memory. */
    method Shrink(r: nat, size: nat, ghost k: nat, ghost i: nat)
      requires Valid() && IsAt(blocks, k, i, r) && !RegionAt(blocks, k, i).free && MIN_REGION <= size < RegionAt(blocks, k, i).size
      modifies `rh, `bytes, `blocks, `currRegions, `splitted, `coalesced
      ensures Valid() && IsAt(blocks, k, i, r) && !RegionAt(blocks, k, i).free && size <= RegionAt(blocks, k, i).size < size + HEADER + MIN_REGION
      ensures blocks == SetRegs(old(blocks), k, ShrunkRegs(old(blocks)[k].regs, i, size))
      ensures Resized(old(Live()), Live(), old(bytes), bytes, Alloc(r + HEADER, old(RegionAt(blocks, k, i)).size),
                      Alloc(r + HEADER, RegionAt(blocks, k, i).size))
    {
      hide HeapOk, Allocs, Counted, KeptIn, Addr, IsAt;
      ghost var l0, b0, was := Live(), bytes, RegionAt(blocks, k, i);
      RegionHeader(k, i, r);
      IndexBelow(k, i, r);
      OwnAllocs(k, i, r);
      OneIsLive(k, i, r);
      var next := rh[r].next;
      if next != 0 {
        RegionHeader(k, i + 1, next);
        IndexBelow(k, i + 1, next);
      }
      if next != 0 && rh[next].free {
        ShiftPlace(blocks, k, i, r, size);
        ShiftBorder(r, size, k, i);
        BytesKeepLive(b0);
      } else {
        TrySplit(r, size, k, i);
      }
      ShrunkIsResized(l0, Live(), b0, bytes, r + HEADER, was.size, RegionAt(blocks, k, i).size);
    }

    lemma ShiftPlace(bs: seq<Block>, k: nat, i: nat, r: nat, size: nat)
      requires IsAt(bs, k, i, r) && i + 1 < |bs[k].regs| && size <= bs[k].regs[i].size
      ensures var cs := SetRegs(bs, k, Shift(bs[k].regs, i, size));
              IsAt(cs, k, i, r) && RegionAt(cs, k, i) == Region(size, bs[k].regs[i].free)
    {
      ShiftAddr(Start(bs[k]), bs[k].regs, i, size, i);
    }

    lemma ShrunkIsResized(l0: set<Alloc>, l1: set<Alloc>, b0: map<nat, nat>, b1: map<nat, nat>, p: nat, n: nat, m: nat)
      requires l1 == l0 - {Alloc(p, n)} + {Alloc(p, m)} && KeptIn(b0, b1, l1) && m <= n
      ensures Resized(l0, l1, b0, b1, Alloc(p, n), Alloc(p, m))
    {
      assert Alloc(p, m) in l1;
    }

    /** reallocate_with_next_region. */
    method GrowIntoNext(r: nat, size: nat, ghost k: nat, ghost i: nat)
      requires Valid() && IsAt(blocks, k, i, r) && !RegionAt(blocks, k, i).free && RegionAt(blocks, k, i).size < size
      requires i + 1 < |blocks[k].regs| && RegionAt(blocks, k, i + 1).free
      requires MIN_REGION <= size <= RegionAt(blocks, k, i).size + RegionAt(blocks, k, i + 1).size + HEADER
      modifies `rh, `bytes, `blocks, `currRegions, `splitted, `coalesced
      ensures Valid() && r in rh && size <= rh[r].size < size + HEADER + MIN_REGION
      ensures blocks == SetRegs(old(blocks), k, TakenRegs(Join(old(blocks)[k].regs, i), i, size))
      ensures Resized(old(Live()), Live(), old(bytes), bytes, Alloc(r + HEADER, old(RegionAt(blocks, k, i)).size),
                      Alloc(r + HEADER, rh[r].size))
    {
      hide HeapOk, Allocs, Counted, KeptIn, Addr;
      ghost var l0, b0, n := Live(), bytes, RegionAt(blocks, k, i).size;
      OwnAllocs(k, i, r);
      JoinPlace(blocks, k, i, r);
      Coalesce(r, k, i);
      BytesKeepLive(b0);
      ghost var l1, b1, big := Live(), bytes, RegionAt(blocks, k, i).size;
      assert l1 == l0 - {Alloc(r + HEADER, n)} + {Alloc(r + HEADER, big)};
      Take(r, size, k, i);
      GrownIsResized(l0, l1, Live(), b0, b1, bytes, r + HEADER, n, big, rh[r].size);
    }

    lemma GrownIsResized(
        l0: set<Alloc>, l1: set<Alloc>, l2: set<Alloc>, b0: map<nat, nat>, b1: map<nat, nat>, b2: map<nat, nat>,
        p: nat, n: nat, big: nat, m: nat)
      requires forall x | x in l0 && x.ptr == p :: x == Alloc(p, n)
      requires l1 == l0 - {Alloc(p, n)} + {Alloc(p, big)} && l2 == l1 - {Alloc(p, big)} + {Alloc(p, m)} && n < m <= big
      requires KeptIn(b0, b1, l1) && KeptIn(b1, b2, l2)
      ensures Resized(l0, l2, b0, b2, Alloc(p, n), Alloc(p, m))
    {
      assert l2 == l0 - {Alloc(p, n)} + {Alloc(p, m)};
      assert Alloc(p, m) in l2 && Alloc(p, big) in l1;
      forall a: nat | p <= a < p + n
        ensures ByteAt(b2, a) == ByteAt(b0, a)
      {
        assert ByteAt(b2, a) == ByteAt(b1, a);
      }
    }

    /** Moving down into a free region that has swallowed the old one, then taking its front. */
    method MoveDownAndTake(q: nat, old_: nat, n: nat, size: nat, ghost k: nat, ghost i: nat)
      requires Valid() && IsAt(blocks, k, i, q) && RegionAt(blocks, k, i).free
      requires MIN_REGION <= size <= RegionAt(blocks, k, i).size && n < size && q < old_
      modifies `rh, `bytes, `blocks, `currRegions, `splitted
      ensures Valid() && q in rh && size <= rh[q].size < size + HEADER + MIN_REGION
      ensures Live() == old(Live()) + {Alloc(q + HEADER, rh[q].size)} && forall x | x in old(Live()) :: x.ptr != q + HEADER
      ensures blocks == SetRegs(old(blocks), k, TakenRegs(old(blocks)[k].regs, i, size))
      ensures KeptIn(old(bytes), bytes, old(Live()))
      ensures forall a: nat | q + HEADER <= a < q + HEADER + n :: ByteAt(bytes, a) == ByteAt(old(bytes), old_ + HEADER + (a - (q + HEADER)))
    {
      hide HeapOk, Allocs, Counted, KeptIn, Addr, IsAt, Moved;
      ghost var l0, b0 := Live(), bytes;
      FreeIsNotLive(k, i, q);
      MoveData(q + HEADER, old_ + HEADER, n, k, i);
      ghost var b1 := bytes;
      MovedKeepsLive(b0, b1, q + HEADER, old_ + HEADER, n, k, i);
      Take(q, size, k, i);
      assert l0 * Live() == l0;
      KeptTrans(b0, b1, bytes, l0, Live());
      MovedThenKept(b0, b1, bytes, Live(), q + HEADER, old_ + HEADER, n, rh[q].size);
    }

    lemma MovedThenKept(b0: map<nat, nat>, b1: map<nat, nat>, b2: map<nat, nat>, l: set<Alloc>, dest: nat, src: nat, n: nat, m: nat)
      requires Moved(b0, b1, dest, src, n) && KeptIn(b1, b2, l) && Alloc(dest, m) in l && n <= m
      ensures forall a: nat | dest <= a < dest + n :: ByteAt(b2, a) == ByteAt(b0, src + (a - dest))
    {
      forall a: nat | dest <= a < dest + n
        ensures ByteAt(b2, a) == ByteAt(b0, src + (a - dest))
      {
        assert ByteAt(b2, a) == ByteAt(b1, a);
      }
    }

    /** Data moved inside a free region touches no live allocation. */
    lemma MovedKeepsLive(b0: map<nat, nat>, b1: map<nat, nat>, dest: nat, src: nat, n: nat, k: nat, i: nat)
      requires Valid() && dest >= HEADER && IsAt(blocks, k, i, dest - HEADER) && RegionAt(blocks, k, i).free
      requires n <= RegionAt(blocks, k, i).size && Moved(b0, b1, dest, src, n)
      ensures KeptIn(b0, b1, Live())
    {
      hide Allocs, Addr, Total, AllHeaded, Listed, Counted;
      forall x: Alloc, a: nat | x in Live() && x.ptr <= a < x.ptr + x.size
        ensures ByteAt(b1, a) == ByteAt(b0, a)
      {
        var l := AllocIsInBlock(blocks, x);
        var j := AllocIsRegion(Start(blocks[l]), blocks[l].regs, x);
        ExtentsDiffer(blocks, k, i, l, j);
      }
    }

    /** Joining the free region before it frees the old one without touching its bytes. */
    method CoalesceOntoPrev(r: nat, ghost k: nat, ghost i: nat) returns (q: nat)
      requires Valid() && IsAt(blocks, k, i, r) && i > 0 && !RegionAt(blocks, k, i).free && RegionAt(blocks, k, i - 1).free
      modifies `rh, `bytes, `blocks, `currRegions, `coalesced
      ensures Valid() && IsAt(blocks, k, i - 1, q) && r == q + HEADER + old(RegionAt(blocks, k, i - 1)).size && r in rh && rh[r].size == old(RegionAt(blocks, k, i)).size
      ensures RegionAt(blocks, k, i - 1) == Region(old(RegionAt(blocks, k, i - 1)).size + old(RegionAt(blocks, k, i)).size + HEADER, true)
      ensures RegionAt(blocks, k, i) == old(RegionAt(blocks, k, i + 1))
      ensures k < |blocks| && k < |old(blocks)| && (i < |blocks[k].regs| <==> i + 1 < |old(blocks)[k].regs|)
      ensures r in old(rh) && q == old(rh)[r].prev
      ensures Live() == old(Live()) - {Alloc(r + HEADER, old(RegionAt(blocks, k, i)).size)}
      ensures blocks == SetRegs(old(blocks), k, Join(old(blocks)[k].regs, i - 1))
      ensures KeptIn(old(bytes), bytes, Live())
      ensures forall a: nat | r + HEADER <= a < r + HEADER + old(RegionAt(blocks, k, i)).size :: ByteAt(bytes, a) == ByteAt(old(bytes), a)
    {
      hide HeapOk, Allocs, Counted, KeptIn, Addr;
      ghost var b0, n := bytes, RegionAt(blocks, k, i).size;
      RegionHeader(k, i, r);
      q := rh[r].prev;
      RegionHeader(k, i - 1, q);
      PrevIsBelow(blocks, k, i, q, r);
      NextIsAbove(k, i - 1, q);
      JoinPlace(blocks, k, i - 1, q);
      ghost var hs := rh;
      Coalesce(q, k, i - 1);
      OldHeaderStays(hs, q, r);
      BytesKeepLive(b0);
      forall a: nat | r + HEADER <= a < r + HEADER + n
        ensures ByteAt(bytes, a) == ByteAt(b0, a)
      {
        InsideJoined(k, i - 1, q, a);
      }
    }

    lemma PrevIsBelow(bs: seq<Block>, k: nat, i: nat, q: nat, r: nat)
      requires i > 0 && IsAt(bs, k, i, r) && IsAt(bs, k, i - 1, q)
      ensures q + HEADER + RegionAt(bs, k, i - 1).size == r
    {
      AddrNext(Start(bs[k]), bs[k].regs, i - 1);
    }

    /** The header of the region joined to the one before it stays in memory for its size to be read. */
    lemma OldHeaderStays(hs: map<nat, Header>, q: nat, r: nat)
      requires q in hs && hs[q].next == r && r in hs && q < r && rh == JoinHeaders(hs, q)
      requires hs[r].next != r
      ensures r in rh && rh[r] == hs[r]
    {
    }

    lemma InsideJoined(k: nat, i: nat, q: nat, a: nat)
      requires Valid() && IsAt(blocks, k, i, q) && q + HEADER <= a < q + HEADER + RegionAt(blocks, k, i).size
      ensures !InHeaders(blocks, a)
    {
      RegionIsNotHeader(blocks, k, i, a);
    }

    /** reallocate_with_prev_region. */
    method GrowIntoPrev(r: nat, size: nat, ghost k: nat, ghost i: nat) returns (q: nat)
      requires Valid() && IsAt(blocks, k, i, r) && !RegionAt(blocks, k, i).free && RegionAt(blocks, k, i).size < size
      requires i > 0 && RegionAt(blocks, k, i - 1).free
      requires MIN_REGION <= size <= RegionAt(blocks, k, i).size + RegionAt(blocks, k, i - 1).size + HEADER
      modifies `rh, `bytes, `blocks, `currRegions, `splitted, `coalesced
      ensures Valid() && q in rh && size <= rh[q].size < size + HEADER + MIN_REGION && r in old(rh) && q == old(rh)[r].prev
      ensures blocks == SetRegs(old(blocks), k, TakenRegs(Join(old(blocks)[k].regs, i - 1), i - 1, size))
      ensures Resized(old(Live()), Live(), old(bytes), bytes, Alloc(r + HEADER, old(RegionAt(blocks, k, i)).size),
                      Alloc(q + HEADER, rh[q].size))
    {
      hide HeapOk, Allocs, Counted, KeptIn, Addr, IsAt;
      ghost var l0, b0, n := Live(), bytes, RegionAt(blocks, k, i).size;
      q := CoalesceOntoPrev(r, k, i);
      ghost var l1, b1 := Live(), bytes;
      MoveDownAndTake(q, r, rh[r].size, size, k, i - 1);
      MovedIsResized(l0, l1, Live(), b0, b1, bytes, Alloc(r + HEADER, n), Alloc(q + HEADER, rh[q].size));
    }

    lemma MovedIsResized(
        l0: set<Alloc>, l1: set<Alloc>, l2: set<Alloc>, b0: map<nat, nat>, b1: map<nat, nat>, b2: map<nat, nat>, x: Alloc, y: Alloc)
      requires l1 == l0 - {x} && l2 == l1 + {y} && KeptIn(b0, b1, l1) && KeptIn(b1, b2, l1)
      requires forall a: nat | x.ptr <= a < x.ptr + x.size :: ByteAt(b1, a) == ByteAt(b0, a)
      requires forall a: nat | y.ptr <= a < y.ptr + x.size :: ByteAt(b2, a) == ByteAt(b1, x.ptr + (a - y.ptr))
      ensures Resized(l0, l2, b0, b2, x, y)
    {
    }

    /** reallocate_with_next_and_prev_region. */
    method GrowIntoBoth(r: nat, size: nat, ghost k: nat, ghost i: nat) returns (q: nat)
      requires Valid() && IsAt(blocks, k, i, r) && !RegionAt(blocks, k, i).free && RegionAt(blocks, k, i).size < size
      requires i > 0 && RegionAt(blocks, k, i - 1).free && i + 1 < |blocks[k].regs| && RegionAt(blocks, k, i + 1).free
      requires MIN_REGION <= size
      requires size <= RegionAt(blocks, k, i).size + RegionAt(blocks, k, i - 1).size + RegionAt(blocks, k, i + 1).size + 2 * HEADER
      modifies `rh, `bytes, `blocks, `currRegions, `splitted, `coalesced
      ensures Valid() && q in rh && size <= rh[q].size < size + HEADER + MIN_REGION && r in old(rh) && q == old(rh)[r].prev
      ensures |Join(old(blocks)[k].regs, i - 1)| == |old(blocks)[k].regs| - 1
      ensures blocks == SetRegs(old(blocks), k, TakenRegs(Join(Join(old(blocks)[k].regs, i - 1), i - 1), i - 1, size))
      ensures Resized(old(Live()), Live(), old(bytes), bytes, Alloc(r + HEADER, old(RegionAt(blocks, k, i)).size),
                      Alloc(q + HEADER, rh[q].size))
    {
      hide HeapOk, Allocs, Counted, KeptIn, Addr, IsAt;
      ghost var l0, b0, n := Live(), bytes, RegionAt(blocks, k, i).size;
      q := CoalesceOntoPrev(r, k, i);
      ghost var l1, b1 := Live(), bytes;
      var oldSize := AbsorbNext(q, r, k, i - 1);
      ghost var b2 := bytes;
      KeptOn(b0, b1, b2, l1);
      MoveDownAndTake(q, r, oldSize, size, k, i - 1);
      MovedIsResized(l0, l1, Live(), b0, b2, bytes, Alloc(r + HEADER, n), Alloc(q + HEADER, rh[q].size));
    }

    /** The second coalesce of reallocate_with_next_and_prev_region; `r` is the header inside the region. */
    method AbsorbNext(q: nat, r: nat, ghost k: nat, ghost i: nat) returns (n: nat)
      requires Valid() && IsAt(blocks, k, i, q) && RegionAt(blocks, k, i).free && k < |blocks| && i + 1 < |blocks[k].regs|
      requires RegionAt(blocks, k, i + 1).free
      requires r in rh && q < r && r + HEADER + rh[r].size <= q + HEADER + RegionAt(blocks, k, i).size
      modifies `rh, `bytes, `blocks, `currRegions, `coalesced
      ensures Valid() && IsAt(blocks, k, i, q) && n == old(rh)[r].size
      ensures RegionAt(blocks, k, i) == Region(old(RegionAt(blocks, k, i)).size + old(RegionAt(blocks, k, i + 1)).size + HEADER, true)
      ensures Live() == old(Live()) && KeptIn(old(bytes), bytes, Live())
      ensures blocks == SetRegs(old(blocks), k, Join(old(blocks)[k].regs, i))
      ensures forall a: nat | q + HEADER <= a < q + HEADER + old(RegionAt(blocks, k, i)).size :: ByteAt(bytes, a) == ByteAt(old(bytes), a)
    {
      hide HeapOk, Allocs, Counted, KeptIn, Addr;
      ghost var b0, size, hs := bytes, RegionAt(blocks, k, i).size, rh;
      RegionHeader(k, i, q);
      NextIsAbove(k, i, q);
      JoinPlace(blocks, k, i, q);
      Coalesce(q, k, i);
      BytesKeepLive(b0);
      assert r in rh && rh[r] == hs[r];
      n := rh[r].size;
      forall a: nat | q + HEADER <= a < q + HEADER + size
        ensures ByteAt(bytes, a) == ByteAt(b0, a)
      {
        InsideJoined(k, i, q, a);
      }
    }

    lemma NextIsAbove(k: nat, i: nat, q: nat)
      requires Valid() && IsAt(blocks, k, i, q) && k < |blocks| && i + 1 < |blocks[k].regs|
      ensures q in rh && rh[q].next == q + HEADER + RegionAt(blocks, k, i).size
      ensures rh[q].next in rh && (rh[rh[q].next].next == 0 || rh[rh[q].next].next > rh[q].next)
    {
      RegionHeader(k, i, q);
      RegionHeader(k, i + 1, rh[q].next);
      AddrNext(Start(blocks[k]), blocks[k].regs, i);
      if i + 2 < |blocks[k].regs| {
        AddrNext(Start(blocks[k]), blocks[k].regs, i + 1);
      }
    }

    /** reallocate_on_new_region. */
    method MoveToNew(r: nat, size: nat, mmap: Option<nat>, best: bool, ghost k: nat, ghost i: nat) returns (p: nat)
      requires Valid() && IsAt(blocks, k, i, r) && !RegionAt(blocks, k, i).free && RegionAt(blocks, k, i).size < size == Rounded(size)
      requires mmap.Some? ==> IsFresh(blocks, mmap.value, BlockSizeFor(size))
      modifies this
      ensures Valid()
      ensures p == 0 <==> TooLarge(size) || old(NoMemoryFor(size, mmap))
      ensures Tidy(old(blocks)) ==> Tidy(blocks)
      ensures p == 0 ==> unchanged(this)
      ensures p != 0 ==> p >= HEADER && p - HEADER in rh && size <= rh[p - HEADER].size < size + HEADER + MIN_REGION
      ensures p != 0 ==> if old(NoFitBefore(blocks, size, |blocks|, 0)) then mmap.Some? && p == mmap.value + BLOCK_HEADER + HEADER
                         else Chosen(old(blocks), size, best, p - HEADER)
      ensures p != 0 ==> Resized(old(Live()), Live(), old(bytes), bytes,
                                 Alloc(r + HEADER, old(RegionAt(blocks, k, i)).size), Alloc(p, rh[p - HEADER].size))
    {
      hide HeapOk, Allocs, Counted, KeptIn, IsAt, IsFresh, NoMemoryFor, BlockSizeFor, Rounded, Moved;
      ghost var l0, b0, x := Live(), bytes, Alloc(r + HEADER, RegionAt(blocks, k, i).size);
      OneIsLive(k, i, r);
      OwnAllocs(k, i, r);
      p := Malloc(size, mmap, best);
      if p == 0 {
        return;
      }
      ghost var l1, b1, y := Live(), bytes, Alloc(p, rh[p - HEADER].size);
      assert x in l1 && y in l1 && x != y;
      ghost var k1, i1 := Locate(r + HEADER);
      RegionHeader(k1, i1, r);
      CopyOver(p, r + HEADER, rh[r].size, x, y);
      ghost var b2 := bytes;
      Free(r + HEADER);
      assert Live() == l0 - {x} + {y};
      ghost var k2, i2 := Locate(p);
      RegionHeader(k2, i2, p - HEADER);
      CopiedIsResized(l0, l1, b0, b1, b2, bytes, x, y);
    }

    /** move_data from one live allocation to another that is at least as large. */
    method CopyOver(dest: nat, src: nat, n: nat, ghost x: Alloc, ghost y: Alloc)
      requires Valid() && x in Live() && y in Live() && x != y && x.size <= y.size && x == Alloc(src, n) && y.ptr == dest
      modifies `bytes, `rh
      ensures Valid() && Moved(old(bytes), bytes, y.ptr, x.ptr, x.size) && KeptIn(old(bytes), bytes, Live() - {y})
    {
      hide Valid, Moved, KeptIn;
      ghost var k, i := Locate(y.ptr);
      ghost var b0 := bytes;
      assert x.ptr + x.size <= y.ptr || y.ptr <= x.ptr by {
        Separate(x, y);
      }
      MoveData(dest, src, n, k, i);
      MovedKeepsOthers(b0, bytes, x, y);
    }

    lemma Separate(x: Alloc, y: Alloc)
      requires Valid() && x in Live() && y in Live() && x != y
      ensures x.ptr + x.size <= y.ptr || y.ptr + y.size <= x.ptr
    {
      LiveAllocationsAreDisjoint(blocks, x, y);
    }

    lemma MovedKeepsOthers(b0: map<nat, nat>, b1: map<nat, nat>, x: Alloc, y: Alloc)
      requires Valid() && y in Live() && x.size <= y.size && Moved(b0, b1, y.ptr, x.ptr, x.size)
      ensures KeptIn(b0, b1, Live() - {y})
    {
      hide Allocs, Valid;
      forall z: Alloc, a: nat | z in Live() - {y} && z.ptr <= a < z.ptr + z.size
        ensures ByteAt(b1, a) == ByteAt(b0, a)
      {
        Separate(z, y);
      }
    }

    lemma CopiedIsResized(
        l0: set<Alloc>, l1: set<Alloc>, b0: map<nat, nat>, b1: map<nat, nat>, b2: map<nat, nat>, b3: map<nat, nat>,
        x: Alloc, y: Alloc)
      requires x in l0 && l1 == l0 + {y} && y !in l0 && x.size <= y.size
      requires KeptIn(b0, b1, l0) && Moved(b1, b2, y.ptr, x.ptr, x.size) && KeptIn(b1, b2, l1 - {y}) && KeptIn(b2, b3, l0 - {x} + {y})
      ensures Resized(l0, l0 - {x} + {y}, b0, b3, x, y)
    {
      forall a: nat | y.ptr <= a < y.ptr + x.size
        ensures ByteAt(b3, a) == ByteAt(b0, x.ptr + (a - y.ptr))
      {
        assert ByteAt(b3, a) == ByteAt(b2, a) == ByteAt(b1, x.ptr + (a - y.ptr));
      }
      forall z: Alloc, a: nat | z in l0 - {x} && z.ptr <= a < z.ptr + z.size
        ensures ByteAt(b3, a) == ByteAt(b0, a)
      {
        assert ByteAt(b3, a) == ByteAt(b2, a) && ByteAt(b2, a) == ByteAt(b1, a);
      }
    }

    /** is_free and sum_of_regions: whether the region and the free ones beside it make `size`. */
    method CanGrow(r: nat, a: nat, b: nat, size: nat) returns (ok: bool)
      requires r in rh && (a != 0 ==> a in rh) && (b != 0 ==> b in rh)
      ensures ok <==> Grows(rh, r, a, b, size)
    {
      if b == 0 {
        return a != 0 && rh[a].free && rh[r].size + rh[a].size + HEADER >= size;
      }
      return a != 0 && rh[a].free && rh[b].free && rh[r].size + rh[a].size + HEADER + rh[b].size + HEADER >= size;
    }

    /** handle_realloc_that_requires_more_memory. */
    method Grow(r: nat, size: nat, mmap: Option<nat>, best: bool, ghost k: nat, ghost i: nat) returns (p: nat)
      requires Valid() && IsAt(blocks, k, i, r) && !RegionAt(blocks, k, i).free && RegionAt(blocks, k, i).size < size == Rounded(size)
      requires mmap.Some? ==> IsFresh(blocks, mmap.value, BlockSizeFor(size))
      modifies this
      ensures Valid()
      ensures p == 0 <==> !old(RoomAround(rh, r, size)) && (TooLarge(size) || old(NoMemoryFor(size, mmap)))
      ensures Tidy(old(blocks)) ==> (Tidy(blocks) <==> !old(LeavesPair(rh, r, size)))
      ensures p == 0 ==> unchanged(this)
      ensures p != 0 ==> p >= HEADER && p - HEADER in rh && size <= rh[p - HEADER].size < size + HEADER + MIN_REGION
      ensures p != 0 ==> GrownAt(old(rh), old(blocks), r, size, mmap, best, p)
      ensures p != 0 ==> Resized(old(Live()), Live(), old(bytes), bytes,
                                 Alloc(r + HEADER, old(RegionAt(blocks, k, i)).size), Alloc(p, rh[p - HEADER].size))
    {
      hide Valid, IsAt, Allocs, IsFresh, Resized, BlockSizeFor, NoMemoryFor, Rounded, TooLarge, Tidy, TakenRegs, Join, Grows, RoomAround, LeavesPair;
      ghost var bs := blocks;
      IndexBelow(k, i, r);
      WaysToGrow(k, i, r, size);
      var next, prev := rh[r].next, rh[r].prev;
      GrownIsTidy(bs, k, i, size);
      var ok := CanGrow(r, next, 0, size);
      if ok {
        GrowIntoNext(r, size, k, i);
        return r + HEADER;
      }
      ok := CanGrow(r, prev, 0, size);
      if ok {
        p := GrowIntoPrev(r, size, k, i);
        return p + HEADER;
      }
      ok := CanGrow(r, prev, next, size);
      if ok {
        p := GrowIntoBoth(r, size, k, i);
        return p + HEADER;
      }
      p := MoveToNew(r, size, mmap, best, k, i);
    }

    /** What the tests on the headers mean for the regions. */
    lemma WaysToGrow(k: nat, i: nat, r: nat, size: nat)
      requires Valid() && IsAt(blocks, k, i, r) && RegionAt(blocks, k, i).size < size && k < |blocks| && i < |blocks[k].regs|
      ensures r in rh && (rh[r].next != 0 ==> rh[r].next in rh) && (rh[r].prev != 0 ==> rh[r].prev in rh)
      ensures var regs, a, b := blocks[k].regs, rh[r].next, rh[r].prev;
              && (Grows(rh, r, a, 0, size) <==> i + 1 < |regs| && regs[i + 1].free && regs[i].size + regs[i + 1].size + HEADER >= size)
              && (Grows(rh, r, b, 0, size) <==> i > 0 && regs[i - 1].free && regs[i].size + regs[i - 1].size + HEADER >= size)
              && (a != 0 || !Grows(rh, r, b, 0, size) ==>
                    (Grows(rh, r, b, a, size) <==> i > 0 && i + 1 < |regs| && regs[i - 1].free && regs[i + 1].free
                                                   && regs[i].size + regs[i - 1].size + regs[i + 1].size + 2 * HEADER >= size))
              && (RoomAround(rh, r, size) <==> Grows(rh, r, a, 0, size) || Grows(rh, r, b, 0, size) || Grows(rh, r, b, a, size))
              && (LeavesPair(rh, r, size) <==> !Grows(rh, r, a, 0, size) && Grows(rh, r, b, 0, size) && i + 1 < |regs| && regs[i + 1].free
                                               && regs[i - 1].size + regs[i].size >= size + MIN_REGION)
    {
      hide Valid, IsAt;
      RegionHeader(k, i, r);
      if i + 1 < |blocks[k].regs| {
        RegionHeader(k, i + 1, rh[r].next);
      }
      if i > 0 {
        RegionHeader(k, i - 1, rh[r].prev);
      }
    }

    /** The three ways to grow in place. */
    lemma GrownIsTidy(bs: seq<Block>, k: nat, i: nat, size: nat)
      requires k < |bs| && i < |bs[k].regs|
      ensures var regs := bs[k].regs;
              && (Tidy(bs) && i + 1 < |regs| && regs[i + 1].free ==> Tidy(SetRegs(bs, k, TakenRegs(Join(regs, i), i, size))))
              && (Tidy(bs) && i > 0 ==>
                    (Tidy(SetRegs(bs, k, TakenRegs(Join(regs, i - 1), i - 1, size))) <==>
                       !(i + 1 < |regs| && regs[i + 1].free && regs[i - 1].size + regs[i].size >= size + MIN_REGION)))
              && (Tidy(bs) && 0 < i && i + 1 < |regs| && regs[i + 1].free ==>
                    |Join(regs, i - 1)| == |regs| - 1 && Tidy(SetRegs(bs, k, TakenRegs(Join(Join(regs, i - 1), i - 1), i - 1, size))))
    {
      var regs := bs[k].regs;
      if Tidy(bs) {
        if i + 1 < |regs| && regs[i + 1].free {
          NextGrowthIsTidy(bs, k, i, size);
          if i > 0 {
            BothGrowthIsTidy(bs, k, i, size);
          }
        }
        if i > 0 {
          PrevGrowthIsTidyExactly(bs, k, i, size);
        }
      }
    }

    /** realloc, for a pointer the caller owns. */
    method Realloc(ptr: nat, size: nat, mmap: Option<nat>, best: bool) returns (p: nat)
      requires Valid() && (ptr != 0 ==> exists n: nat :: Alloc(ptr, n) in Live())
      requires mmap.Some? ==> IsFresh(blocks, mmap.value, BlockSizeFor(Rounded(size)))
      modifies this
      ensures Valid()
      ensures size == 0 ==> p == 0
      ensures ptr == 0 ==> (p == 0 <==> size == 0 || TooLarge(size) || old(NoMemoryFor(size, mmap)))
      ensures ptr != 0 && size != 0 ==>
                (p == 0 <==> TooLarge(size) || (!old(RoomAround(rh, ptr - HEADER, Rounded(size))) && old(NoMemoryFor(size, mmap))))
      ensures ptr == 0 && size == 0 ==> unchanged(this)
      ensures ptr == 0 && p != 0 ==>
                p >= HEADER && p - HEADER in rh && size <= rh[p - HEADER].size < Rounded(size) + HEADER + MIN_REGION && Live() == old(Live()) + {Alloc(p, rh[p - HEADER].size)}
      ensures ptr == 0 ==> KeptIn(old(bytes), bytes, old(Live()))
      ensures ptr != 0 && size == 0 ==>
                p == 0 && (forall x :: x in Live() <==> x in old(Live()) && x.ptr != ptr) && KeptIn(old(bytes), bytes, Live())
      ensures Tidy(old(blocks)) ==> (Tidy(blocks) <==> ptr == 0 || size == 0 || TooLarge(size) || !old(LeavesPair(rh, ptr - HEADER, Rounded(size))))
      ensures size != 0 && p == 0 ==> unchanged(this)
      ensures ptr != 0 && size != 0 && p != 0 ==>
                && p >= HEADER && p - HEADER in rh && size <= rh[p - HEADER].size < Rounded(size) + HEADER + MIN_REGION
                && ptr >= HEADER && ptr - HEADER in old(rh)
                && (if old(rh)[ptr - HEADER].size >= Rounded(size) then p == ptr
                    else GrownAt(old(rh), old(blocks), ptr - HEADER, Rounded(size), mmap, best, p))
                && exists n: nat :: Alloc(ptr, n) in old(Live()) &&
                     Resized(old(Live()), Live(), old(bytes), bytes, Alloc(ptr, n), Alloc(p, rh[p - HEADER].size))
    {
      hide Valid, IsAt, Allocs, IsFresh, KeptIn, Resized, BlockSizeFor, NoMemoryFor, Tidy, RoomAround, LeavesPair, ShrunkRegs;
      ghost var bs := blocks;
      if ptr == 0 {
        p := Malloc(size, mmap, best);
        return;
      }
      if size == 0 {
        Free(ptr);
        return 0;
      }
      if TooLarge(size) {
        return 0;
      }
      var n := Rounded(size);
      RoundedTwice(size);
      ghost var k, i := Locate(ptr);
      var r := ptr - HEADER;
      RegionHeader(k, i, r);
      IndexBelow(k, i, r);
      RoomAlready(rh, r, n);
      SameNeed(size, mmap);
      ghost var x := Alloc(ptr, RegionAt(blocks, k, i).size);
      if rh[r].size == n {
        SameIsResized(Live(), bytes, x);
        p := ptr;
      } else if rh[r].size > n {
        Shrink(r, n, k, i);
        ShrunkStaysTidy(bs, k, i, n);
        RegionHeader(k, i, r);
        p := ptr;
      } else {
        p := Grow(r, n, mmap, best, k, i);
      }
    }

    lemma SameNeed(size: nat, mmap: Option<nat>)
      ensures NoMemoryFor(Rounded(size), mmap) <==> NoMemoryFor(size, mmap)
    {
      RoundedTwice(size);
    }

    lemma RoomAlready(hs: map<nat, Header>, r: nat, size: nat)
      requires r in hs
      ensures hs[r].size >= size ==> RoomAround(hs, r, size) && !LeavesPair(hs, r, size)
    {
    }

    lemma ShrunkStaysTidy(bs: seq<Block>, k: nat, i: nat, size: nat)
      requires k < |bs| && i < |bs[k].regs| && !bs[k].regs[i].free && size <= bs[k].regs[i].size
      ensures Tidy(bs) ==> Tidy(SetRegs(bs, k, ShrunkRegs(bs[k].regs, i, size)))
    {
      if Tidy(bs) {
        ShrunkIsTidy(bs, k, i, size);
      }
    }

    lemma RoundedTwice(size: nat)
      ensures Rounded(Rounded(size)) == Rounded(size)
      ensures size > 0 ==> (TooLarge(Rounded(size)) <==> TooLarge(size))
    {
    }

    lemma SameIsResized(l: set<Alloc>, b: map<nat, nat>, x: Alloc)
      requires x in l
      ensures Resized(l, l, b, b, x, x)
    {
      assert l - {x} + {x} == l;
    }

    /** The owner of an allocation writes one of its bytes: the heap stays in order and nobody
        else's bytes change. */
    method Store(a: nat, v: nat, ghost x: Alloc)
      requires Valid() && x in Live() && x.ptr <= a < x.ptr + x.size
      modifies `bytes, `rh
      ensures Valid() && bytes == old(bytes)[a := v] && KeptIn(old(bytes), bytes, Live() - {x})
    {
      hide HeapOk, Counted, Allocs, KeptIn;
      ghost var k, i := Locate(x.ptr);
      ghost var hs, b0 := rh, bytes;
      StoreByte(a, v);
      DataKeepsHeap(hs, rh, bh, blocks, listHead, listTail, k, i, x.ptr - HEADER, x.size);
      StoreKeepsOthers(b0, x, a, v);
    }

    lemma StoreKeepsOthers(b0: map<nat, nat>, x: Alloc, a: nat, v: nat)
      requires Valid() && x in Live() && x.ptr <= a < x.ptr + x.size
      ensures KeptIn(b0, b0[a := v], Live() - {x})
    {
      hide Allocs, Valid;
      forall z: Alloc, c: nat | z in Live() - {x} && z.ptr <= c < z.ptr + z.size
        ensures ByteAt(b0[a := v], c) == ByteAt(b0, c)
      {
        Separate(z, x);
      }
    }
  }
}
