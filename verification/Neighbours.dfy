/** Free regions side by side.  What the allocator's calls do to the regions of a block, and when
    they leave two free ones next to each other, or a block with nothing in it. */
module Neighbours {
  import opened Regions
  import opened Blocks

  /** Free regions are never neighbours. */
  ghost predicate NoPairs(regs: seq<Region>) {
    forall j: nat | j + 1 < |regs| :: !(regs[j].free && regs[j + 1].free)
  }

  /** ... except perhaps beside region `i`. */
  ghost predicate PairsOnlyAt(regs: seq<Region>, i: nat) {
    forall j: nat | j + 1 < |regs| && j != i && j + 1 != i :: !(regs[j].free && regs[j + 1].free)
  }

  ghost predicate TidyBlock(b: Block) {
    NoPairs(b.regs) && !(|b.regs| == 1 && b.regs[0].free)
  }

  /** ... and no block is empty. */
  ghost predicate Tidy(bs: seq<Block>) {
    forall k: nat | k < |bs| :: TidyBlock(bs[k])
  }

  ghost predicate TidyBut(bs: seq<Block>, k: nat) {
    forall l: nat | l < |bs| && l != k :: TidyBlock(bs[l])
  }

  // ---------------------------------------------------------------- what the calls do

  /** try_split_region. */
  function SplitRegs(regs: seq<Region>, i: nat, size: nat): seq<Region>
    requires i < |regs|
  {
    if regs[i].size < size + HEADER + MIN_REGION then regs else Cut(regs, i, size)
  }

  /** A region, or its front, is handed out. */
  function TakenRegs(regs: seq<Region>, i: nat, size: nat): seq<Region>
    requires i < |regs|
  {
    SplitRegs(SetFree(regs, i, false), i, size)
  }

  /** try_coalesce_regions: the region is joined with its next and then with its previous one. */
  function JoinedRegs(regs: seq<Region>, i: nat): seq<Region>
    requires i < |regs|
  {
    var a := if i + 1 < |regs| && regs[i + 1].free then Join(regs, i) else regs;
    if i > 0 && a[i - 1].free then Join(a, i - 1) else a
  }

  /** free: the block goes back to the system when that was all there was in it. */
  function Freed(bs: seq<Block>, k: nat, i: nat): seq<Block>
    requires k < |bs| && i < |bs[k].regs|
  {
    var regs := JoinedRegs(SetFree(bs[k].regs, i, true), i);
    if |regs| == 1 then Without(bs, k) else SetRegs(bs, k, regs)
  }

  // ---------------------------------------------------------------- what they keep

  lemma TakenPairs(regs: seq<Region>, i: nat, size: nat)
    requires i < |regs| && PairsOnlyAt(regs, i)
    ensures var after := TakenRegs(regs, i, size);
            && i < |after| && !after[i].free
            && (NoPairs(after) <==> !(regs[i].size >= size + HEADER + MIN_REGION && i + 1 < |regs| && regs[i + 1].free))
  {
    var used, after := SetFree(regs, i, false), TakenRegs(regs, i, size);
    if regs[i].size >= size + HEADER + MIN_REGION {
      assert after[i + 1].free;
      assert i + 1 < |regs| ==> after[i + 2] == regs[i + 1];
    }
  }

  lemma JoinPairs(regs: seq<Region>, i: nat)
    requires i + 1 < |regs| && forall j: nat | j + 1 < |regs| && (j + 1 < i || j > i + 1) :: !(regs[j].free && regs[j + 1].free)
    ensures var after := Join(regs, i);
            PairsOnlyAt(after, i) && |after| == |regs| - 1 && after[i] == Region(regs[i].size + regs[i + 1].size + HEADER, regs[i].free)
    ensures forall j: nat | j < i :: Join(regs, i)[j] == regs[j]
    ensures forall j: nat | i < j < |regs| - 1 :: Join(regs, i)[j] == regs[j + 1]
  {
  }

  /** Joining leaves no free neighbours where there were none but beside the region. */
  lemma JoinedIsTidy(regs: seq<Region>, i: nat)
    requires i < |regs| && regs[i].free && PairsOnlyAt(regs, i)
    requires i + 2 < |regs| && regs[i + 1].free ==> !regs[i + 2].free
    requires i >= 2 && regs[i - 1].free ==> !regs[i - 2].free
    ensures NoPairs(JoinedRegs(regs, i))
  {
    hide Join;
    if i + 1 < |regs| && regs[i + 1].free {
      JoinPairs(regs, i);
      JoinedToPrev(Join(regs, i), i);
    } else {
      JoinedToPrev(regs, i);
    }
  }

  /** The second half. */
  lemma JoinedToPrev(regs: seq<Region>, i: nat)
    requires i < |regs| && PairsOnlyAt(regs, i) && (i + 1 < |regs| ==> !regs[i + 1].free)
    requires i >= 2 && regs[i - 1].free ==> !regs[i - 2].free
    ensures NoPairs(if i > 0 && regs[i - 1].free then Join(regs, i - 1) else regs)
  {
    hide Join;
    if i > 0 && regs[i - 1].free {
      JoinPairs(regs, i - 1);
    }
  }

  lemma FreedRegsAreTidy(regs: seq<Region>, i: nat)
    requires i < |regs| && NoPairs(regs)
    ensures NoPairs(JoinedRegs(SetFree(regs, i, true), i))
  {
    JoinedIsTidy(SetFree(regs, i, true), i);
  }

  /** free keeps the heap tidy. */
  lemma FreedIsTidy(bs: seq<Block>, k: nat, i: nat)
    requires k < |bs| && i < |bs[k].regs| && Tidy(bs)
    ensures Tidy(Freed(bs, k, i))
  {
    hide JoinedRegs, SetFree;
    assert TidyBlock(bs[k]);
    FreedRegsAreTidy(bs[k].regs, i);
  }

  /** One block with something in use instead of another. */
  lemma SetRegsIsTidy(bs: seq<Block>, k: nat, regs: seq<Region>, i: nat)
    requires k < |bs| && TidyBut(bs, k) && i < |regs| && !regs[i].free
    ensures Tidy(SetRegs(bs, k, regs)) <==> NoPairs(regs)
  {
    var cs := SetRegs(bs, k, regs);
    assert cs[k].regs == regs;
    if Tidy(cs) {
      assert TidyBlock(cs[k]);
    }
  }

  /** malloc keeps the heap tidy. */
  lemma TakenIsTidy(bs: seq<Block>, k: nat, i: nat, size: nat)
    requires k < |bs| && i < |bs[k].regs| && TidyBut(bs, k) && NoPairs(bs[k].regs) && bs[k].regs[i].free
    ensures Tidy(SetRegs(bs, k, TakenRegs(bs[k].regs, i, size)))
  {
    hide TakenRegs;
    TakenPairs(bs[k].regs, i, size);
    SetRegsIsTidy(bs, k, TakenRegs(bs[k].regs, i, size), i);
  }

  /** realloc in place that makes a region smaller. */
  function ShrunkRegs(regs: seq<Region>, i: nat, size: nat): seq<Region>
    requires i < |regs| && size <= regs[i].size
  {
    if i + 1 < |regs| && regs[i + 1].free then Shift(regs, i, size) else SplitRegs(regs, i, size)
  }

  lemma ShrunkIsTidy(bs: seq<Block>, k: nat, i: nat, size: nat)
    requires k < |bs| && i < |bs[k].regs| && Tidy(bs) && !bs[k].regs[i].free && size <= bs[k].regs[i].size
    ensures Tidy(SetRegs(bs, k, ShrunkRegs(bs[k].regs, i, size)))
  {
    var regs := bs[k].regs;
    assert TidyBlock(bs[k]);
    if i + 1 < |regs| && regs[i + 1].free {
      assert forall j: nat | j < |regs| :: Shift(regs, i, size)[j].free == regs[j].free;
    } else {
      assert SetFree(regs, i, false) == regs;
      TakenPairs(regs, i, size);
    }
    SetRegsIsTidy(bs, k, ShrunkRegs(regs, i, size), i);
  }

  /** ... larger, by the next region. */
  lemma NextGrowthIsTidy(bs: seq<Block>, k: nat, i: nat, size: nat)
    requires k < |bs| && i + 1 < |bs[k].regs| && Tidy(bs) && bs[k].regs[i + 1].free
    ensures Tidy(SetRegs(bs, k, TakenRegs(Join(bs[k].regs, i), i, size)))
  {
    var regs := bs[k].regs;
    assert TidyBlock(bs[k]);
    JoinPairs(regs, i);
    TakenPairs(Join(regs, i), i, size);
    SetRegsIsTidy(bs, k, TakenRegs(Join(regs, i), i, size), i);
  }

  /** ... by the one before it: a free region is left beside the next exactly when that is free, too,
      and something is cut off. */
  lemma PrevGrowthIsTidyExactly(bs: seq<Block>, k: nat, i: nat, size: nat)
    requires k < |bs| && 0 < i < |bs[k].regs| && Tidy(bs)
    ensures var regs := bs[k].regs;
            Tidy(SetRegs(bs, k, TakenRegs(Join(regs, i - 1), i - 1, size))) <==>
              !(i + 1 < |regs| && regs[i + 1].free && regs[i - 1].size + regs[i].size >= size + MIN_REGION)
  {
    var regs := bs[k].regs;
    assert TidyBlock(bs[k]);
    JoinPairs(regs, i - 1);
    TakenPairs(Join(regs, i - 1), i - 1, size);
    SetRegsIsTidy(bs, k, TakenRegs(Join(regs, i - 1), i - 1, size), i - 1);
  }

  /** ... by both. */
  lemma BothGrowthIsTidy(bs: seq<Block>, k: nat, i: nat, size: nat)
    requires k < |bs| && 0 < i && i + 1 < |bs[k].regs| && Tidy(bs) && bs[k].regs[i + 1].free
    ensures |Join(bs[k].regs, i - 1)| == |bs[k].regs| - 1
    ensures Tidy(SetRegs(bs, k, TakenRegs(Join(Join(bs[k].regs, i - 1), i - 1), i - 1, size)))
  {
    var regs := bs[k].regs;
    assert TidyBlock(bs[k]);
    JoinPairs(regs, i - 1);
    var a := Join(regs, i - 1);
    JoinPairs(a, i - 1);
    TakenPairs(Join(a, i - 1), i - 1, size);
    SetRegsIsTidy(bs, k, TakenRegs(Join(a, i - 1), i - 1, size), i - 1);
  }

  /** One such block: 600 bytes free, 100 in use, 100 free, and one more in use.  Asked for 300 bytes,
      the second region does not get them with the third, but with the first. */
  lemma NeighboursAreLeft(base: nat, size: nat)
    ensures var regs := [Region(600, true), Region(100, false), Region(100, true), Region(64, false)];
            var bs := [Block(base, size, regs)];
            && Tidy(bs) && regs[1].size + HEADER + regs[2].size < 300 <= regs[0].size + HEADER + regs[1].size
            && !Tidy(SetRegs(bs, 0, TakenRegs(Join(regs, 0), 0, 300)))
  {
    var regs := [Region(600, true), Region(100, false), Region(100, true), Region(64, false)];
    PrevGrowthIsTidyExactly([Block(base, size, regs)], 0, 1, 300);
  }
}
