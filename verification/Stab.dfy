/** The binary search of kern/kdebug.c over a symbol table whose entries of one type are in
    increasing order of address but lie among entries of other types. */
module Stab {
  type Addr = x: int | 0 <= x < 0x1_0000_0000

  const MAX: Addr := 0xffff_ffff

  datatype Stab = Stab(kind: int, value: Addr)

  /** `*region_left` and `*region_right`. */
  datatype Region = Region(left: int, right: int)

  /** Everything the outer loop changes. */
  datatype Loop = Loop(l: int, r: int, left: int, any: bool, addr: Addr)

  predicate Is(stabs: seq<Stab>, kind: int, i: int) {
    0 <= i < |stabs| && stabs[i].kind == kind
  }

  /** Nothing of the type between `i` and `j`, both included. */
  predicate NoneIn(stabs: seq<Stab>, kind: int, i: int, j: int) {
    forall k | i <= k <= j :: !Is(stabs, kind, k)
  }

  predicate Increasing(stabs: seq<Stab>, kind: int, l: int, r: int) {
    forall i, j | l <= i < j <= r && Is(stabs, kind, i) && Is(stabs, kind, j) :: stabs[i].value < stabs[j].value
  }

  predicate InTable(stabs: seq<Stab>, l: int, r: int) {
    0 <= l && r < |stabs| && l <= r + 1
  }

  /** addr++ on a 32-bit address. */
  function Succ(a: Addr): Addr {
    if a == MAX then 0 else a + 1
  }

  /** The last entry of the type in `[l, m]`, or `l - 1`. */
  function LastOfKind(stabs: seq<Stab>, kind: int, l: int, m: int): (k: int)
    ensures l <= m ==> l - 1 <= k <= m
    ensures l <= k <= m ==> Is(stabs, kind, k)
    ensures NoneIn(stabs, kind, if k < l then l else k + 1, m)
    decreases m - l
  {
    if m < l then l - 1
    else if Is(stabs, kind, m) then m
    else LastOfKind(stabs, kind, l, m - 1)
  }

  /** One turn of the outer loop. */
  function Turn(stabs: seq<Stab>, kind: int, s: Loop): Loop {
    var trueM := (s.l + s.r) / 2;
    var m := LastOfKind(stabs, kind, s.l, trueM);
    if m < s.l || !Is(stabs, kind, m) then s.(l := trueM + 1)
    else if stabs[m].value < s.addr then s.(any := true, left := m, l := trueM + 1)
    else if stabs[m].value > s.addr then s.(any := true, r := m - 1)
    else s.(any := true, left := m, l := m, addr := Succ(s.addr))
  }

  /** The next turn cannot find an exact match where the last one did. */
  function Fresh(stabs: seq<Stab>, kind: int, s: Loop): nat {
    if Is(stabs, kind, s.l) && stabs[s.l].value == s.addr then 1 else 0
  }

  /** The measure: the interval shrinks, or the match at its left end is used up. */
  lemma TurnDecreases(stabs: seq<Stab>, kind: int, s: Loop)
    requires s.l <= s.r
    ensures var t := Turn(stabs, kind, s);
            && t.l <= t.r + 1 && s.l <= t.l && t.r <= s.r
            && (t.r - t.l < s.r - s.l || (t.r - t.l == s.r - s.l && Fresh(stabs, kind, t) < Fresh(stabs, kind, s)))
  {
  }

  function Search(stabs: seq<Stab>, kind: int, s: Loop): Loop
    decreases if s.l <= s.r then s.r - s.l + 1 else 0, Fresh(stabs, kind, s)
  {
    if s.l <= s.r then
      TurnDecreases(stabs, kind, s);
      Search(stabs, kind, Turn(stabs, kind, s))
    else s
  }

  lemma OneTurn(stabs: seq<Stab>, kind: int, s: Loop)
    ensures Search(stabs, kind, s) == if s.l <= s.r then Search(stabs, kind, Turn(stabs, kind, s)) else s
  {
  }

  function ScanBack(stabs: seq<Stab>, kind: int, left: int, l: int): (k: int)
    ensures k == l || left <= k < l
    ensures k > left ==> Is(stabs, kind, k)
    ensures NoneIn(stabs, kind, if k >= left then k + 1 else left + 1, l)
    decreases l - left
  {
    if l <= left || Is(stabs, kind, l) then l else ScanBack(stabs, kind, left, l - 1)
  }

  lemma LastOfKindStep(stabs: seq<Stab>, kind: int, l: int, m: int)
    ensures LastOfKind(stabs, kind, l, m) ==
              if m < l then l - 1 else if Is(stabs, kind, m) then m else LastOfKind(stabs, kind, l, m - 1)
  {
  }

  lemma ScanBackStep(stabs: seq<Stab>, kind: int, left: int, l: int)
    ensures ScanBack(stabs, kind, left, l) ==
              if l <= left || Is(stabs, kind, l) then l else ScanBack(stabs, kind, left, l - 1)
  {
  }

  function Finish(stabs: seq<Stab>, kind: int, s: Loop): Region {
    if s.any then Region(ScanBack(stabs, kind, s.left, s.r), s.r) else Region(s.left, s.left - 1)
  }

  function Start(left: int, right: int, addr: Addr): Loop {
    Loop(left, right, left, false, addr)
  }

  /** What stab_binsearch leaves in its two out-parameters. */
  function Bracket(stabs: seq<Stab>, kind: int, left: int, right: int, addr: Addr): Region {
    Finish(stabs, kind, Search(stabs, kind, Start(left, right, addr)))
  }

  method StabBinsearch(stabs: seq<Stab>, regionLeft: int, regionRight: int, kind: int, address: Addr)
    returns (left: int, right: int)
    requires InTable(stabs, regionLeft, regionRight)
    ensures Region(left, right) == Bracket(stabs, kind, regionLeft, regionRight, address)
  {
    hide Search, LastOfKind, ScanBack, Fresh;
    var l, r, anyMatches, addr := regionLeft, regionRight, false, address;
    left, right := regionLeft, regionRight;
    while l <= r
      invariant regionLeft <= l && r <= regionRight && right == r && regionLeft <= left
      invariant Search(stabs, kind, Start(regionLeft, regionRight, address)) ==
                Search(stabs, kind, Loop(l, r, left, anyMatches, addr))
      decreases r - l + 1, Fresh(stabs, kind, Loop(l, r, left, anyMatches, addr))
    {
      ghost var s := Loop(l, r, left, anyMatches, addr);
      TurnDecreases(stabs, kind, s);
      OneTurn(stabs, kind, s);
      var trueM := (l + r) / 2;
      var m := trueM;
      while m >= l && stabs[m].kind != kind
        invariant l - 1 <= m <= trueM
        invariant LastOfKind(stabs, kind, l, trueM) == LastOfKind(stabs, kind, l, m)
      {
        LastOfKindStep(stabs, kind, l, m);
        m := m - 1;
      }
      LastOfKindStep(stabs, kind, l, m);
      if m < l {
        l := trueM + 1;
        continue;
      }
      anyMatches := true;
      if stabs[m].value < addr {
        left := m;
        l := trueM + 1;
      } else if stabs[m].value > addr {
        right := m - 1;
        r := m - 1;
      } else {
        left := m;
        l := m;
        addr := if addr == MAX then 0 else addr + 1;
      }
    }
    OneTurn(stabs, kind, Loop(l, r, left, anyMatches, addr));
    if !anyMatches {
      right := left - 1;
    } else {
      l := right;
      while l > left && stabs[l].kind != kind
        invariant l <= right && ScanBack(stabs, kind, left, right) == ScanBack(stabs, kind, left, l)
      {
        ScanBackStep(stabs, kind, left, l);
        l := l - 1;
      }
      ScanBackStep(stabs, kind, left, l);
      left := l;
    }
  }

  // ---------------------------------------------------------------- what the bracket means

  predicate Holds(stabs: seq<Stab>, kind: int, l: int, r: int, a: int) {
    exists i | l <= i <= r :: Is(stabs, kind, i) && stabs[i].value == a
  }

  /** The documented answer: the last entry of the type at or below `addr`. */
  ghost predicate IsFloor(stabs: seq<Stab>, kind: int, l: int, r: int, addr: Addr, i: int) {
    && l <= i <= r && Is(stabs, kind, i) && stabs[i].value <= addr
    && forall j | i < j <= r && Is(stabs, kind, j) :: stabs[j].value > addr
  }

  ghost predicate Contained(stabs: seq<Stab>, kind: int, l: int, r: int, addr: Addr) {
    exists i :: IsFloor(stabs, kind, l, r, addr, i)
  }

  /** What a caller can check beforehand: an entry at `addr` itself must not be the last
      address there is, nor be followed by an entry at the next address. */
  predicate Gap(stabs: seq<Stab>, kind: int, l: int, r: int, addr: Addr) {
    Holds(stabs, kind, l, r, addr) ==> addr < MAX && !Holds(stabs, kind, l, r, addr + 1)
  }

  /** The outer loop's invariant: `left` is the last entry before `l`, everything before `l` is
      at or below the address, everything after `r` above it. */
  ghost predicate Kept(stabs: seq<Stab>, kind: int, left: int, right: int, addr: Addr, s: Loop) {
    && left <= s.l <= s.r + 1 && s.r <= right
    && (s.addr == addr || (s.addr == addr + 1 && Is(stabs, kind, s.left) && stabs[s.left].value == addr))
    && (forall j | left <= j < s.l && Is(stabs, kind, j) :: stabs[j].value <= addr)
    && (forall j | s.r < j <= right && Is(stabs, kind, j) :: stabs[j].value > addr)
    && (s.r == right || Is(stabs, kind, s.r + 1))
    && (if s.left == left && NoneIn(stabs, kind, left, s.l - 1) && s.addr == addr then
          s.any || s.r == right
        else
          s.any && left <= s.left <= s.l && s.left <= s.r && Is(stabs, kind, s.left) && stabs[s.left].value <= addr
          && NoneIn(stabs, kind, s.left + 1, s.l - 1))
    && (s.any ==> s.r < right || !NoneIn(stabs, kind, left, s.r))
  }

  lemma SkipKeeps(stabs: seq<Stab>, kind: int, left: int, right: int, addr: Addr, s: Loop, trueM: int)
    requires InTable(stabs, left, right) && Increasing(stabs, kind, left, right) && Gap(stabs, kind, left, right, addr)
    requires Kept(stabs, kind, left, right, addr, s) && s.l <= s.r
    requires s.l <= trueM <= s.r && NoneIn(stabs, kind, s.l, trueM)
    ensures Kept(stabs, kind, left, right, addr, s.(l := trueM + 1))
  {
  }

  lemma BelowKeeps(stabs: seq<Stab>, kind: int, left: int, right: int, addr: Addr, s: Loop, m: int, trueM: int)
    requires InTable(stabs, left, right) && Increasing(stabs, kind, left, right) && Gap(stabs, kind, left, right, addr)
    requires Kept(stabs, kind, left, right, addr, s) && s.l <= s.r
    requires s.l <= m <= trueM <= s.r && Is(stabs, kind, m) && NoneIn(stabs, kind, m + 1, trueM) && stabs[m].value < s.addr
    ensures Kept(stabs, kind, left, right, addr, s.(any := true, left := m, l := trueM + 1))
  {
    assert stabs[m].value <= addr;
  }

  lemma AboveKeeps(stabs: seq<Stab>, kind: int, left: int, right: int, addr: Addr, s: Loop, m: int)
    requires InTable(stabs, left, right) && Increasing(stabs, kind, left, right) && Gap(stabs, kind, left, right, addr)
    requires Kept(stabs, kind, left, right, addr, s) && s.l <= s.r
    requires s.l <= m <= s.r && Is(stabs, kind, m) && stabs[m].value > s.addr
    ensures Kept(stabs, kind, left, right, addr, s.(any := true, r := m - 1))
  {
  }

  lemma ExactKeeps(stabs: seq<Stab>, kind: int, left: int, right: int, addr: Addr, s: Loop, m: int)
    requires InTable(stabs, left, right) && Increasing(stabs, kind, left, right) && Gap(stabs, kind, left, right, addr)
    requires Kept(stabs, kind, left, right, addr, s) && s.l <= s.r
    requires s.l <= m <= s.r && Is(stabs, kind, m) && stabs[m].value == s.addr
    ensures Kept(stabs, kind, left, right, addr, s.(any := true, left := m, l := m, addr := Succ(s.addr)))
  {
    assert s.addr == addr;
  }

  lemma TurnKeeps(stabs: seq<Stab>, kind: int, left: int, right: int, addr: Addr, s: Loop)
    requires InTable(stabs, left, right) && Increasing(stabs, kind, left, right) && Gap(stabs, kind, left, right, addr)
    requires Kept(stabs, kind, left, right, addr, s) && s.l <= s.r
    ensures Kept(stabs, kind, left, right, addr, Turn(stabs, kind, s))
  {
    hide Kept, Increasing, Gap;
    var trueM := (s.l + s.r) / 2;
    var m := LastOfKind(stabs, kind, s.l, trueM);
    if m < s.l || !Is(stabs, kind, m) {
      SkipKeeps(stabs, kind, left, right, addr, s, trueM);
    } else if stabs[m].value < s.addr {
      BelowKeeps(stabs, kind, left, right, addr, s, m, trueM);
    } else if stabs[m].value > s.addr {
      AboveKeeps(stabs, kind, left, right, addr, s, m);
    } else {
      ExactKeeps(stabs, kind, left, right, addr, s, m);
    }
  }

  lemma {:induction false} SearchKeeps(stabs: seq<Stab>, kind: int, left: int, right: int, addr: Addr, s: Loop)
    requires InTable(stabs, left, right) && Increasing(stabs, kind, left, right) && Gap(stabs, kind, left, right, addr)
    requires Kept(stabs, kind, left, right, addr, s)
    ensures Kept(stabs, kind, left, right, addr, Search(stabs, kind, s))
    ensures Search(stabs, kind, s).l == Search(stabs, kind, s).r + 1
    decreases if s.l <= s.r then s.r - s.l + 1 else 0, Fresh(stabs, kind, s)
  {
    if s.l <= s.r {
      TurnDecreases(stabs, kind, s);
      TurnKeeps(stabs, kind, left, right, addr, s);
      SearchKeeps(stabs, kind, left, right, addr, Turn(stabs, kind, s));
    }
  }

  /** MAIN RESULT: with a gap after `addr`, `left` is exactly the last entry of the type at or
      below it and `right` is just before the next one; when there is none, the interval ends
      just before the first entry, or is empty if the type does not occur. */
  lemma BracketIsExact(stabs: seq<Stab>, kind: int, left: int, right: int, addr: Addr)
    requires InTable(stabs, left, right) && Increasing(stabs, kind, left, right) && Gap(stabs, kind, left, right, addr)
    ensures var g := Bracket(stabs, kind, left, right, addr);
            if NoneIn(stabs, kind, left, right) then g == Region(left, left - 1)
            else
              && g.right <= right && (g.right == right || Is(stabs, kind, g.right + 1))
              && if Contained(stabs, kind, left, right, addr) then
                   IsFloor(stabs, kind, left, right, addr, g.left) && NoneIn(stabs, kind, g.left + 1, g.right) && g.left <= g.right
                 else NoneIn(stabs, kind, left, g.right) && g.right < right &&
                      g.left == if g.right < left then g.right else left
  {
    hide Kept, Gap, Increasing, NoneIn, IsFloor, Contained, Finish, Search;
    var s := Search(stabs, kind, Start(left, right, addr));
    StartIsKept(stabs, kind, left, right, addr);
    SearchKeeps(stabs, kind, left, right, addr, Start(left, right, addr));
    EndIsExact(stabs, kind, left, right, addr, s);
  }

  lemma StartIsKept(stabs: seq<Stab>, kind: int, left: int, right: int, addr: Addr)
    requires InTable(stabs, left, right)
    ensures Kept(stabs, kind, left, right, addr, Start(left, right, addr))
  {
  }

  lemma EndIsExact(stabs: seq<Stab>, kind: int, left: int, right: int, addr: Addr, s: Loop)
    requires InTable(stabs, left, right) && Kept(stabs, kind, left, right, addr, s) && s.l == s.r + 1
    ensures var g := Finish(stabs, kind, s);
            if NoneIn(stabs, kind, left, right) then g == Region(left, left - 1)
            else
              && g.right <= right && (g.right == right || Is(stabs, kind, g.right + 1))
              && if Contained(stabs, kind, left, right, addr) then
                   IsFloor(stabs, kind, left, right, addr, g.left) && NoneIn(stabs, kind, g.left + 1, g.right) && g.left <= g.right
                 else NoneIn(stabs, kind, left, g.right) && g.right < right &&
                      g.left == if g.right < left then g.right else left
  {
    if NoneIn(stabs, kind, left, right) {
      assert !s.any;
    } else if s.left == left && NoneIn(stabs, kind, left, s.l - 1) && s.addr == addr {
      assert s.any;
    } else {
      assert IsFloor(stabs, kind, left, right, addr, s.left);
    }
  }

  /** The documented test "left > right means not contained" is right exactly when some entry
      is at or below the address or there is none at all: below the first entry the code
      leaves left at most right. */
  lemma EmptyMeansNotContainedExactly(stabs: seq<Stab>, kind: int, left: int, right: int, addr: Addr)
    requires InTable(stabs, left, right) && Increasing(stabs, kind, left, right) && Gap(stabs, kind, left, right, addr)
    ensures var g := Bracket(stabs, kind, left, right, addr);
            (g.left > g.right <==> !Contained(stabs, kind, left, right, addr)) <==>
            Contained(stabs, kind, left, right, addr) || NoneIn(stabs, kind, left, right)
  {
    BracketIsExact(stabs, kind, left, right, addr);
  }

  // ---------------------------------------------------------------- without the gap

  /** An entry at the last address of all is never found: addr++ wraps to 0 and the search
      then moves below the entry it had. */
  lemma {:induction false} LastAddressIsMissed(stabs: seq<Stab>, kind: int, left: int, right: int, i: int)
    requires InTable(stabs, left, right) && Increasing(stabs, kind, left, right)
    requires left <= i <= right && Is(stabs, kind, i) && stabs[i].value == MAX
    ensures Bracket(stabs, kind, left, right, MAX).left == i - 1
    ensures IsFloor(stabs, kind, left, right, MAX, i)
  {
    MissFrom(stabs, kind, left, right, i, Start(left, right, MAX));
  }

  /** Up to the match every entry seen is below MAX; after it the interval ends before `i`. */
  lemma {:induction false} MissFrom(stabs: seq<Stab>, kind: int, left: int, right: int, i: int, s: Loop)
    requires InTable(stabs, left, right) && Increasing(stabs, kind, left, right)
    requires left <= i <= right && Is(stabs, kind, i) && stabs[i].value == MAX
    requires left <= s.l <= s.r + 1 && s.r <= right && left <= s.left
    requires if s.addr == MAX then s.l <= i <= s.r && s.r == right && s.left <= s.l
             else s.addr == 0 && s.left == i && s.any && ((s.l == i && i <= s.r == right) || s.r == i - 1)
    requires s.r == i - 1 ==> s.l == i
    ensures var e := Search(stabs, kind, s); e.any && e.left == i && e.r == i - 1
    decreases if s.l <= s.r then s.r - s.l + 1 else 0, Fresh(stabs, kind, s)
  {
    if s.l <= s.r {
      TurnDecreases(stabs, kind, s);
      var trueM := (s.l + s.r) / 2;
      var m := LastOfKind(stabs, kind, s.l, trueM);
      assert s.l <= i <= trueM ==> m == i;
      MissFrom(stabs, kind, left, right, i, Turn(stabs, kind, s));
    }
  }

  /** With entries at both `a` and `a + 1` the answer depends on which the search meets first.
      Alone in the table, they send it past the right one ... */
  lemma NeighbourOvershoots(stabs: seq<Stab>, a: Addr)
    requires a + 1 < MAX && |stabs| == 2 && stabs[0] == Stab(0, a) && stabs[1] == Stab(0, a + 1)
    ensures Bracket(stabs, 0, 0, 1, a) == Region(1, 1) && IsFloor(stabs, 0, 0, 1, a, 0)
  {
    hide Search;
    var s0 := Start(0, 1, a);
    var s1 := Turn(stabs, 0, s0);
    var s2 := Turn(stabs, 0, s1);
    var s3 := Turn(stabs, 0, s2);
    var s4 := Turn(stabs, 0, s3);
    assert s1 == Loop(0, 1, 0, true, a + 1);
    assert s2 == Loop(1, 1, 0, true, a + 1);
    assert s3 == Loop(1, 1, 1, true, Succ(a + 1));
    OneTurn(stabs, 0, s0);
    OneTurn(stabs, 0, s1);
    OneTurn(stabs, 0, s2);
    OneTurn(stabs, 0, s3);
    OneTurn(stabs, 0, s4);
  }

  /** ... and with one more entry behind them they do not. */
  lemma NeighbourIsAvoided(stabs: seq<Stab>, a: Addr)
    requires a < MAX && |stabs| == 3 && stabs[0] == Stab(0, a) && stabs[1] == Stab(0, a + 1) && stabs[2].value > a + 1
    ensures Bracket(stabs, 0, 0, 2, a) == Region(0, 0) && IsFloor(stabs, 0, 0, 2, a, 0)
  {
    hide Search;
    var s0 := Start(0, 2, a);
    var s1 := Turn(stabs, 0, s0);
    var s2 := Turn(stabs, 0, s1);
    var s3 := Turn(stabs, 0, s2);
    assert s1 == Loop(0, 0, 0, true, a);
    assert s2 == Loop(0, 0, 0, true, a + 1);
    assert s3 == Loop(1, 0, 0, true, a + 1);
    OneTurn(stabs, 0, s0);
    OneTurn(stabs, 0, s1);
    OneTurn(stabs, 0, s2);
    OneTurn(stabs, 0, s3);
  }
}
