/** Creating and removing files in fisopfs: what each call does to every path, and the tree of
    directories that all of them keep. */
module Namespace {
  import Fs
  import opened Dentries
  import opened Paths

  // ---------------------------------------------------------------- the calls

  /** search_free_inode. */
  function FreeFrom(w: World, i: nat): (j: nat)
    requires i <= |w|
    ensures i <= j <= |w| && (j < |w| ==> !w[j].used) && forall k: nat | i <= k < j :: w[k].used
    decreases |w| - i
  {
    if i == |w| || !w[i].used then i else FreeFrom(w, i + 1)
  }

  function FreeInode(w: World): (j: nat)
    requires |w| > 2
  {
    FreeFrom(w, 2)
  }

  lemma FreeInodeIs(w: World, j: nat)
    requires |w| > 2 && 2 <= j <= |w| && (j < |w| ==> !w[j].used) && forall k: nat | 2 <= k < j :: w[k].used
    ensures FreeInode(w) == j
  {
    assert FreeInode(w) >= j;
  }

  /** A new inode; the two dots of a directory need a block, and nobody looks whether there was one. */
  function Fresh(j: nat, p: int, dir: bool, room: bool): Node {
    Node(true, dir, if dir && room then [Slot(j, DOT), Slot(p, DOTDOT)] else [])
  }

  function WithSlots(w: World, p: nat, slots: seq<Slot>): World
    requires p < |w|
  {
    w[p := Node(w[p].used, w[p].dir, slots)]
  }

  function Linked(w: World, p: nat, name: seq<int>, j: nat, dir: bool, room: bool): World
    requires p < |w| && j < |w|
  {
    WithSlots(w, p, Insert(w[p].slots, j, name))[j := Fresh(j, p, dir, room)]
  }

  function Unlinked(w: World, p: nat, name: seq<int>, j: nat): World
    requires p < |w| && j < |w|
  {
    WithSlots(w, p, Erase(w[p].slots, name))[j := Node(false, false, [])]
  }

  /** new_inode, in a parent that has a slot or is no directory.  What iterate_over_dir answers for a parent that is no directory, -ENOTDIR, is
      taken for an entry found, so the call succeeds without having made one.  `free` is the number
      of free blocks. */
  function NewInode(w: World, path: seq<int>, dir: bool, free: nat): (World, int)
    requires |path| > 0 && path[0] == SLASH && |w| > 2
  {
    var p, j := SearchParent(w, path), FreeInode(w);
    if p < 0 then (w, p)
    else if j == |w| then (w, Fs.ENOMEM)
    else if !IsDir(w, p) then (w[j := Fresh(j, p, dir, free > 0)], 0)
    else
      var need := if |w[p].slots| == 0 then 1 else 0;
      if free < need then (w, Fs.ENOSPC) else (Linked(w, p, LastName(path), j, dir, free > need), 0)
  }

  /** fiuba_rmv_inode, every inode having one link. */
  function RemoveInode(w: World, path: seq<int>, j: int): (World, int)
    requires |path| > 0 && path[0] == SLASH && 0 <= j < |w|
  {
    var p, name := SearchParent(w, path), LastName(path);
    if p == 0 then (w, ENOENT)
    else if p < 0 then (w, p)
    else if !IsDir(w, p) then (w, ENOTDIR)
    else if Lookup(w[p].slots, name) == 0 then (w, ENOENT)
    else (Unlinked(w, p, name, j), 0)
  }

  /** dir_is_empty: two entries are taken for the dots. */
  predicate DirIsEmpty(slots: seq<Slot>) {
    |slots| == 2 || First(slots, AnyFile) == |slots|
  }

  /** fisopfs_mknod and fisopfs_mkdir, as far as `Roomy`. */
  function Mknod(w: World, path: seq<int>, dir: bool, free: nat): (World, int)
    requires |path| > 0 && path[0] == SLASH && |w| > 2
  {
    if SearchInode(w, path) > 0 then (w, EEXIST) else NewInode(w, path, dir, free)
  }

  /** The parent, if it is a directory, has a place for one more entry. */
  predicate Roomy(w: World, path: seq<int>)
    requires |path| > 0 && path[0] == SLASH
  {
    var p := SearchParent(w, path);
    IsDir(w, p) ==> HasSlot(w[p].slots)
  }

  /** What iteration sees behind a block full of entries after one more was written: not that one. */
  ghost predicate SeenBehind(slots: seq<Slot>, more: seq<Slot>, name: seq<int>) {
    exists s :: more == slots + [s] && Hit(Named(name), s) == 0
  }

  /** What happens where the parent has no slot.  Behind one full block the entry is written across
      two, if there is another block; of longer directories only that no other inode is touched. */
  ghost predicate Crowded(w: World, path: seq<int>, dir: bool, free: nat, v: World, r: int)
    requires |path| > 0 && path[0] == SLASH && |w| > 2
  {
    var p, j := SearchParent(w, path), FreeInode(w);
    && |v| == |w| && IsDir(w, p) && r <= 0
    && (j == |w| ==> r == Fs.ENOMEM && v == w)
    && (j < |w| && r < 0 ==> v == w[p := v[p]])
    && (j < |w| && r == 0 ==> exists room :: v == w[p := v[p]][j := Fresh(j, p, dir, room)])
    && (j < |w| && |w[p].slots| == PER_BLOCK ==> FullBlock(w, path, dir, free, v, r))
  }

  ghost predicate FullBlock(w: World, path: seq<int>, dir: bool, free: nat, v: World, r: int)
    requires |path| > 0 && path[0] == SLASH && |w| > 2
  {
    var p, j := SearchParent(w, path), FreeInode(w);
    && 0 <= p < |w| == |v| && j < |w|
    && if free == 0 then r == Fs.ENOSPC && v == w
       else r == 0 && v == WithSlots(w, p, v[p].slots)[j := Fresh(j, p, dir, free > 1)] && SeenBehind(w[p].slots, v[p].slots, LastName(path))
  }

  /** fisopfs_mknod and fisopfs_mkdir. */
  ghost predicate Creates(w: World, path: seq<int>, dir: bool, free: nat, v: World, r: int)
    requires |path| > 0 && path[0] == SLASH && |w| > 2
  {
    if SearchInode(w, path) > 0 || Roomy(w, path) then (v, r) == Mknod(w, path, dir, free) else Crowded(w, path, dir, free, v, r)
  }

  function Unlink(w: World, path: seq<int>): (World, int)
    requires |path| > 0 && path[0] == SLASH
  {
    var j := SearchInode(w, path);
    if j == 0 then (w, ENOENT)
    else if j < 0 then (w, j)
    else if IsDir(w, j) then (w, EISDIR)
    else if j >= |w| then (w, ENOENT)
    else RemoveInode(w, path, j)
  }

  function Rmdir(w: World, path: seq<int>): (World, int)
    requires |path| > 0 && path[0] == SLASH
  {
    var j := SearchInode(w, path);
    if j == 0 then (w, ENOENT)
    else if j < 0 then (w, j)
    else if !IsDir(w, j) then (w, ENOTDIR)
    else if !DirIsEmpty(w[j].slots) then (w, ENOTEMPTY)
    else RemoveInode(w, path, j)
  }

  // ---------------------------------------------------------------- one new entry

  /** A new name for a new inode. */
  ghost predicate CanLink(w: World, p: nat, name: seq<int>, j: nat) {
    && Tree(w) && Live(w, p) && IsDir(w, p) && Lookup(w[p].slots, name) == 0
    && 2 <= j < |w| && !w[j].used
  }

  /** Where the entry went, and that no other changed. */
  lemma LinkedEntries(w: World, p: nat, name: seq<int>, j: nat, dir: bool, room: bool) returns (f: nat)
    requires CanLink(w, p, name, j)
    ensures var v := Linked(w, p, name, j, dir, room);
            && Entry(v, p, f) && v[p].slots[f] == Slot(j, name) && !Entry(w, p, f)
            && (forall d: nat, k: nat | !(d == p && k == f) :: Entry(v, d, k) <==> Entry(w, d, k))
            && (forall d: nat, k: nat | Entry(w, d, k) :: v[d].slots[k] == w[d].slots[k])
    ensures f >= 2 && f == First(w[p].slots, Free)
  {
    hide Tree;
    DotsAreLive(w, p);
    f := First(w[p].slots, Free);
  }

  lemma LinkedIsRewired(w: World, p: nat, name: seq<int>, j: nat, dir: bool, room: bool)
    requires CanLink(w, p, name, j)
    ensures var v := Linked(w, p, name, j, dir, room);
            Rewired(w, v, p, name, j) && Step(v, p, name) == j && Step(w, p, name) == ENOENT
  {
    hide Tree;
    var v := Linked(w, p, name, j, dir, room);
    LookupAfterInsert(w[p].slots, j, name, name);
    forall r: nat, n: seq<int> | Live(w, r) && r != j && !(r == p && n == name)
      ensures Step(v, r, n) == Step(w, r, n) && (Step(w, r, n) >= 0 ==> Live(w, Step(w, r, n)) && Step(w, r, n) != j)
    {
      StepStays(w, r, n);
      if r == p {
        LookupAfterInsert(w[p].slots, j, name, n);
      }
    }
  }

  lemma LinkedWalk(w: World, p: nat, name: seq<int>, j: nat, dir: bool, room: bool, names: seq<seq<int>>)
    requires CanLink(w, p, name, j)
    ensures var v := Linked(w, p, name, j, dir, room);
            if Takes(w, ROOT, names, p, name) then
              Walk(v, ROOT, names) == Walk(v, j, Rest(w, ROOT, names, p, name)) && Walk(w, ROOT, names) == ENOENT
            else Walk(v, ROOT, names) == Walk(w, ROOT, names)
  {
    hide Tree, Takes, Rest, Walk, Step;
    RootIsThere(w);
    LinkedIsRewired(w, p, name, j, dir, room);
    WalkRewired(w, Linked(w, p, name, j, dir, room), p, name, j, ROOT, names);
    WalkError(w, ENOENT, Rest(w, ROOT, names, p, name));
  }

  lemma LinkedDots(w: World, p: nat, name: seq<int>, j: nat, dir: bool, room: bool, d: nat)
    requires CanLink(w, p, name, j) && (dir ==> room)
    requires var v := Linked(w, p, name, j, dir, room); Live(v, d) && IsDir(v, d)
    ensures var v := Linked(w, p, name, j, dir, room); Dotted(v, d) && Unique(v[d].slots)
  {
    hide Tree;
    DotsAreLive(w, p);
    var v := Linked(w, p, name, j, dir, room);
    var f := LinkedEntries(w, p, name, j, dir, room);
    if d == j {
      assert Target(v, p, f) == d;
      assert NamedBy(v, p, d);
    } else {
      OldDotsStay(w, p, name, j, dir, room, d);
    }
  }

  lemma OldDotsStay(w: World, p: nat, name: seq<int>, j: nat, dir: bool, room: bool, d: nat)
    requires CanLink(w, p, name, j) && d != j && Live(w, d) && IsDir(w, d)
    ensures var v := Linked(w, p, name, j, dir, room); Dotted(v, d) && Unique(v[d].slots)
  {
    hide Tree, Unique;
    DotsAreLive(w, d);
    DotsAreLive(w, p);
    InsertIsMap(w[p].slots, j, name);
    var v, t := Linked(w, p, name, j, dir, room), Target(w, d, 1);
    var f := LinkedEntries(w, p, name, j, dir, room);
    assert v[d].slots[0] == w[d].slots[0] && v[d].slots[1] == w[d].slots[1];
    if d != ROOT {
      hide Linked;
      var k: nat :| Entry(w, t, k) && Target(w, t, k) == d;
      assert Entry(v, t, k) && Target(v, t, k) == d;
    }
  }

  lemma LinkedReached(w: World, p: nat, name: seq<int>, j: nat, dir: bool, room: bool, i: nat)
    requires CanLink(w, p, name, j) && PlainName(name) && (i == j || (2 <= i && Live(w, i)))
    ensures Reached(Linked(w, p, name, j, dir, room), i)
  {
    hide Tree;
    var v := Linked(w, p, name, j, dir, room);
    var goal := if i == j then p else i;
    DotsAreLive(w, p);
    var names := PathTo(w, goal);
    LinkedWalk(w, p, name, j, dir, room, names);
    LinkedIsRewired(w, p, name, j, dir, room);
    if i == j {
      WalkSnoc(v, ROOT, names, name);
      assert Plain(names + [name]);
    }
  }

  lemma PathTo(w: World, j: nat) returns (names: seq<seq<int>>)
    requires Tree(w) && ROOT <= j && Live(w, j)
    ensures Plain(names) && Walk(w, ROOT, names) == j
  {
    if j == ROOT {
      names := [];
    } else {
      assert Reached(w, j);
      hide Tree;
      names :| Plain(names) && Walk(w, ROOT, names) == j;
    }
  }

  lemma LinkedKeepsEntries(w: World, p: nat, name: seq<int>, j: nat, dir: bool, room: bool)
    requires CanLink(w, p, name, j) && PlainName(name)
    ensures var v := Linked(w, p, name, j, dir, room); EntriesRight(v) && OneEntryEach(v)
  {
    hide Tree;
    var v := Linked(w, p, name, j, dir, room);
    var f := LinkedEntries(w, p, name, j, dir, room);
    forall d: nat, k: nat | Entry(v, d, k)
      ensures EntryRight(v, d, k) && (Target(v, d, k) == j <==> d == p && k == f)
    {
      if Entry(w, d, k) {
        EntryFacts(w, d, k);
      }
    }
    forall d: nat, k: nat, e: nat, l: nat | Entry(v, d, k) && Entry(v, e, l) && Target(v, d, k) == Target(v, e, l)
      ensures d == e && k == l
    {
      if Entry(w, d, k) && Entry(w, e, l) {
        OneEntry(w, d, k, e, l);
      }
    }
  }

  lemma LinkedFits(w: World, p: nat, name: seq<int>, j: nat, dir: bool, room: bool)
    requires CanLink(w, p, name, j) && HasSlot(w[p].slots)
    ensures OneBlockEach(Linked(w, p, name, j, dir, room))
  {
    hide Tree;
    FitsOneBlock(w, p);
    forall d: nat | d < |w| && d != p && d != j && Live(w, d) && IsDir(w, d)
      ensures |w[d].slots| <= PER_BLOCK
    {
      FitsOneBlock(w, d);
    }
  }

  lemma LinkedKeepsTree(w: World, p: nat, name: seq<int>, j: nat, dir: bool, room: bool)
    requires CanLink(w, p, name, j) && PlainName(name) && (dir ==> room) && HasSlot(w[p].slots)
    ensures Tree(Linked(w, p, name, j, dir, room))
  {
    var v := Linked(w, p, name, j, dir, room);
    hide Reached, Dotted, EntriesRight, OneEntryEach, OneBlockEach, Unique, Insert;
    LinkedKeepsEntries(w, p, name, j, dir, room);
    LinkedFits(w, p, name, j, dir, room);
    forall d: nat | Live(v, d) && IsDir(v, d)
      ensures Dotted(v, d) && Unique(v[d].slots)
    {
      LinkedDots(w, p, name, j, dir, room, d);
    }
    forall i: nat | 2 <= i && Live(v, i)
      ensures Reached(v, i)
    {
      LinkedReached(w, p, name, j, dir, room, i);
    }
  }

  // ---------------------------------------------------------------- one entry less

  /** The entry of a file, or of a directory without entries. */
  ghost predicate CanUnlink(w: World, p: nat, name: seq<int>, j: nat) {
    && Tree(w) && Live(w, p) && IsDir(w, p) && PlainName(name) && Step(w, p, name) == j
    && (IsDir(w, j) ==> DirIsEmpty(w[j].slots))
  }

  /** In a tree dir_is_empty tells the truth. */
  lemma DirIsEmptyExactly(w: World, d: nat)
    requires Tree(w) && Live(w, d) && IsDir(w, d)
    ensures DirIsEmpty(w[d].slots) <==> forall k: nat :: !Entry(w, d, k)
  {
    DotsAreLive(w, d);
    var k := First(w[d].slots, AnyFile);
    if k < |w[d].slots| {
      assert Entry(w, d, k);
    } else {
      forall l: nat | Entry(w, d, l)
        ensures Hit(AnyFile, w[d].slots[l]) != 0
      {
        EntryFacts(w, d, l);
      }
    }
  }

  lemma UnlinkedEntries(w: World, p: nat, name: seq<int>, j: nat) returns (f: nat)
    requires CanUnlink(w, p, name, j)
    ensures j != p && 2 <= j && Live(w, j) && Entry(w, p, f) && w[p].slots[f] == Slot(j, name)
    ensures f == First(w[p].slots, Named(name)) && forall k: nat :: !Entry(w, j, k)
    ensures var v := Unlinked(w, p, name, j);
            && (forall d: nat, k: nat :: Entry(v, d, k) <==> Entry(w, d, k) && !(d == p && k == f))
            && (forall d: nat, k: nat | Entry(v, d, k) :: v[d].slots[k] == w[d].slots[k])
  {
    hide Tree;
    f := PlainStep(w, p, name);
    EntryFacts(w, p, f);
    if IsDir(w, j) {
      DirIsEmptyExactly(w, j);
    }
  }

  lemma UnlinkedIsRewired(w: World, p: nat, name: seq<int>, j: nat)
    requires CanUnlink(w, p, name, j)
    ensures j < |w| && Rewired(w, Unlinked(w, p, name, j), p, name, j) && Step(Unlinked(w, p, name, j), p, name) == ENOENT
  {
    hide Tree;
    var f := UnlinkedEntries(w, p, name, j);
    var v := Unlinked(w, p, name, j);
    DotsAreLive(w, p);
    LookupAfterErase(w[p].slots, name, name);
    forall r: nat, n: seq<int> | Live(w, r) && r != j && !(r == p && n == name)
      ensures Step(v, r, n) == Step(w, r, n) && (Step(w, r, n) >= 0 ==> Live(w, Step(w, r, n)) && Step(w, r, n) != j)
    {
      StepStays(w, r, n);
      if r == p {
        LookupAfterErase(w[p].slots, name, n);
      }
      StepElsewhere(w, p, name, j, f, r, n);
    }
  }

  lemma StepElsewhere(w: World, p: nat, name: seq<int>, j: nat, f: nat, r: nat, n: seq<int>)
    requires Tree(w) && Live(w, r) && r != j && !(r == p && n == name) && 2 <= j
    requires Entry(w, p, f) && w[p].slots[f] == Slot(j, name) && forall k: nat :: !Entry(w, j, k)
    ensures Step(w, r, n) != j
  {
    hide Tree;
    if IsDir(w, r) {
      DotsAreLive(w, r);
      var k := First(w[r].slots, Named(n));
      assert r == ROOT || NamedBy(w, Target(w, r, 1), r);
      assert Target(w, r, 1) != j;
      if 2 <= k < |w[r].slots| && Target(w, r, k) == j {
        OneEntry(w, r, k, p, f);
      }
    }
  }

  lemma UnlinkedWalk(w: World, p: nat, name: seq<int>, j: nat, names: seq<seq<int>>)
    requires CanUnlink(w, p, name, j)
    ensures j < |w|
    ensures Walk(Unlinked(w, p, name, j), ROOT, names) == if Takes(w, ROOT, names, p, name) then ENOENT else Walk(w, ROOT, names)
    ensures !Takes(w, ROOT, names, p, name) ==> Walk(w, ROOT, names) != j
  {
    hide Tree, Takes, Rest, Walk, Step;
    RootIsThere(w);
    var f := UnlinkedEntries(w, p, name, j);
    var v := Unlinked(w, p, name, j);
    UnlinkedIsRewired(w, p, name, j);
    WalkRewired(w, v, p, name, j, ROOT, names);
    WalkError(v, ENOENT, Rest(w, ROOT, names, p, name));
  }

  lemma UnlinkedDots(w: World, p: nat, name: seq<int>, j: nat, d: nat)
    requires CanUnlink(w, p, name, j) && j < |w| && d != j && Live(w, d) && IsDir(w, d)
    ensures var v := Unlinked(w, p, name, j); Dotted(v, d) && Unique(v[d].slots)
  {
    hide Tree;
    var f := UnlinkedEntries(w, p, name, j);
    var v := Unlinked(w, p, name, j);
    DotsAreLive(w, p);
    DotsAreLive(w, d);
    EraseIsMap(w[p].slots, name);
    var t := Target(w, d, 1);
    assert Target(v, d, 1) == t;
    if d != ROOT {
      var k: nat :| Entry(w, t, k) && Target(w, t, k) == d;
      assert Entry(v, t, k) && Target(v, t, k) == d;
    }
  }

  /** A walk through the entry ends with it. */
  lemma NothingBehind(w: World, j: nat, names: seq<seq<int>>)
    requires Tree(w) && Live(w, j) && Plain(names) && |names| > 0 && forall k: nat :: !Entry(w, j, k)
    ensures Walk(w, j, names) < 0
  {
    hide Tree;
    var r := Step(w, j, names[0]);
    if r >= 0 {
      var k := PlainStep(w, j, names[0]);
      assert false;
    }
    WalkError(w, r, names[1..]);
  }

  lemma {:induction false} RestIsPlain(w: World, r: int, names: seq<seq<int>>, p: nat, name: seq<int>)
    requires Plain(names)
    ensures Plain(Rest(w, r, names, p, name))
    decreases |names|
  {
    if |names| > 0 && !(r == p && names[0] == name) {
      RestIsPlain(w, Step(w, r, names[0]), names[1..], p, name);
    }
  }

  lemma UnlinkedReached(w: World, p: nat, name: seq<int>, j: nat, i: nat)
    requires CanUnlink(w, p, name, j) && j < |w| && i != j && 2 <= i && Live(w, i)
    ensures Reached(Unlinked(w, p, name, j), i)
  {
    hide Tree;
    var f := UnlinkedEntries(w, p, name, j);
    var names := PathTo(w, i);
    UnlinkedWalk(w, p, name, j, names);
    if Takes(w, ROOT, names, p, name) {
      var rest := Rest(w, ROOT, names, p, name);
      RestIsPlain(w, ROOT, names, p, name);
      RootIsThere(w);
      UnlinkedIsRewired(w, p, name, j);
      WalkRewired(w, Unlinked(w, p, name, j), p, name, j, ROOT, names);
      if |rest| > 0 {
        NothingBehind(w, j, rest);
      }
      assert false;
    }
  }

  lemma UnlinkedKeepsEntries(w: World, p: nat, name: seq<int>, j: nat)
    requires CanUnlink(w, p, name, j) && j < |w|
    ensures var v := Unlinked(w, p, name, j); EntriesRight(v) && OneEntryEach(v)
  {
    hide Tree;
    var v := Unlinked(w, p, name, j);
    var f := UnlinkedEntries(w, p, name, j);
    forall d: nat, k: nat | Entry(v, d, k)
      ensures EntryRight(v, d, k)
    {
      EntryFacts(w, d, k);
      if Target(w, d, k) == j {
        OneEntry(w, d, k, p, f);
      }
    }
    forall d: nat, k: nat, e: nat, l: nat | Entry(v, d, k) && Entry(v, e, l) && Target(v, d, k) == Target(v, e, l)
      ensures d == e && k == l
    {
      OneEntry(w, d, k, e, l);
    }
  }

  lemma UnlinkedFits(w: World, p: nat, name: seq<int>, j: nat)
    requires CanUnlink(w, p, name, j) && j < |w|
    ensures OneBlockEach(Unlinked(w, p, name, j))
  {
    hide Tree;
    forall d: nat | d < |w| && Live(w, d) && IsDir(w, d)
      ensures |w[d].slots| <= PER_BLOCK
    {
      FitsOneBlock(w, d);
    }
  }

  lemma UnlinkedKeepsTree(w: World, p: nat, name: seq<int>, j: nat)
    requires CanUnlink(w, p, name, j)
    ensures j < |w| && Tree(Unlinked(w, p, name, j))
  {
    hide Reached, Dotted, EntriesRight, OneEntryEach, OneBlockEach, Unique, Erase;
    var f := UnlinkedEntries(w, p, name, j);
    var v := Unlinked(w, p, name, j);
    UnlinkedKeepsEntries(w, p, name, j);
    UnlinkedFits(w, p, name, j);
    forall d: nat | Live(v, d) && IsDir(v, d)
      ensures Dotted(v, d) && Unique(v[d].slots)
    {
      UnlinkedDots(w, p, name, j, d);
    }
    forall i: nat | 2 <= i && Live(v, i)
      ensures Reached(v, i)
    {
      UnlinkedReached(w, p, name, j, i);
    }
  }

  // ---------------------------------------------------------------- whole calls

  /** A path whose last name is a name that fits an entry. */
  predicate Proper(path: seq<int>) {
    Clean(path) && PlainName(LastName(path)) && IsName(LastName(path))
  }

  lemma ParentIsThere(w: World, path: seq<int>)
    requires Tree(w) && Clean(path) && SearchParent(w, path) >= 0
    ensures Live(w, SearchParent(w, path)) && SearchParent(w, path) >= ROOT
  {
    hide Tree, Walk, Search, SingleSlashes;
    RootIsThere(w);
    SearchSplits(w, path);
    var names :| SearchParent(w, path) == Walk(w, ROOT, names) && PathNames(path) == names + [LastName(path)];
    WalkStays(w, ROOT, names);
  }

  /** Paths that led somewhere lead there still. */
  lemma LinkedSearch(w: World, p: nat, name: seq<int>, j: nat, dir: bool, room: bool, q: seq<int>)
    requires CanLink(w, p, name, j) && SearchInode(w, q) > 0
    ensures SearchInode(Linked(w, p, name, j, dir, room), q) == SearchInode(w, q)
  {
    hide Tree, Walk, Search, Takes;
    var v := Linked(w, p, name, j, dir, room);
    var s := Stripped(q);
    SearchIsFold(w, s, ROOT);
    SearchIsFold(v, s, ROOT);
    LinkedWalk(w, p, name, j, dir, room, Names(s));
    RootIsThere(w);
    WalkStays(w, ROOT, Names(s));
  }

  /** The name is not in the parent directory yet, if there is one. */
  predicate NewName(w: World, path: seq<int>)
    requires |path| > 0 && path[0] == SLASH
  {
    var p := SearchParent(w, path);
    IsDir(w, p) ==> Lookup(w[p].slots, LastName(path)) == 0
  }

  /** mknod looks whether the path exists, but not when the path is too long for search_inode. */
  lemma ShortIsNew(w: World, path: seq<int>, dir: bool, free: nat)
    requires Tree(w) && Clean(path) && |path| < MAX_FILE_NAME && Mknod(w, path, dir, free).1 == 0
    ensures NewName(w, path)
  {
    hide Tree, Search, Walk, SingleSlashes, SearchInode, NewInode;
    SearchIsNotZero(w, path);
    AbsentIsNew(w, path);
  }

  lemma AbsentIsNew(w: World, path: seq<int>)
    requires Tree(w) && Clean(path)
    ensures SearchInode(w, path) < 0 && |path| < MAX_FILE_NAME ==> NewName(w, path)
  {
    hide Tree, Search, Walk, SingleSlashes, SearchInode;
    RootIsThere(w);
    SearchSplits(w, path);
    var p := SearchParent(w, path);
    if IsDir(w, p) {
      ParentIsThere(w, path);
      DotsAreLive(w, p);
      StepStays(w, p, LastName(path));
    }
  }

  lemma MknodLinks(w: World, path: seq<int>, dir: bool, free: nat)
    requires Tree(w) && Clean(path) && Mknod(w, path, dir, free).1 == 0 && IsDir(w, SearchParent(w, path))
    ensures Live(w, SearchParent(w, path)) && SearchParent(w, path) >= ROOT && FreeInode(w) < |w|
    ensures NewName(w, path) ==> CanLink(w, SearchParent(w, path), LastName(path), FreeInode(w))
    ensures Mknod(w, path, dir, free).0 == Linked(w, SearchParent(w, path), LastName(path), FreeInode(w), dir, free > 0)
  {
    hide Tree, Search, Walk, SingleSlashes, SearchInode, Insert;
    RootIsThere(w);
    ParentIsThere(w, path);
    DotsAreLive(w, SearchParent(w, path));
  }

  /** In a tree a directory without a slot has one full block. */
  lemma CrowdedIsFull(w: World, path: seq<int>, dir: bool, free: nat, v: World, r: int)
    requires Tree(w) && Clean(path) && Creates(w, path, dir, free, v, r) && SearchInode(w, path) < 0 && !Roomy(w, path)
    ensures Live(w, SearchParent(w, path)) && |w[SearchParent(w, path)].slots| == PER_BLOCK
    ensures r == 0 <==> FreeInode(w) < |w| && free > 0
    ensures r != 0 ==> v == w
    ensures r == 0 ==> Straddles(w, v, path) && !Tree(v)
  {
    hide Tree, Search, Walk, SingleSlashes, SearchInode, First, SeenBehind;
    RootIsThere(w);
    var p := SearchParent(w, path);
    ParentIsThere(w, path);
    FitsOneBlock(w, p);
    if r == 0 {
      assert |v[p].slots| == PER_BLOCK + 1 by {
        BehindIsLonger(w[p].slots, v[p].slots, LastName(path));
      }
      assert Live(v, p) && IsDir(v, p);
      if Tree(v) {
        FitsOneBlock(v, p);
      }
    }
  }

  lemma BehindIsLonger(slots: seq<Slot>, more: seq<Slot>, name: seq<int>)
    requires SeenBehind(slots, more, name)
    ensures |more| == |slots| + 1
  {
  }

  /** Creating makes the path lead to the new inode exactly when the parent is a directory with a
      slot and the path is short enough to be looked up.  The tree is kept exactly when the parent is
      a directory with a slot and without that name and a new directory finds a block for its dots. */
  lemma MknodNamesItsPath(w: World, path: seq<int>, dir: bool, free: nat, v: World, r: int)
    requires Tree(w) && Proper(path) && Creates(w, path, dir, free, v, r) && r == 0
    ensures FreeInode(w) < |w| && SearchParent(w, path) >= 0
    ensures SearchInode(v, path) == FreeInode(w) <==> IsDir(w, SearchParent(w, path)) && Roomy(w, path) && |path| < MAX_FILE_NAME
    ensures Tree(v) <==> IsDir(w, SearchParent(w, path)) && Roomy(w, path) && NewName(w, path) && (dir ==> free > 0)
  {
    hide Tree, Search, Walk, SingleSlashes, PlainName, Crowded, NewInode, HasSlot, SearchInode, SearchParent, LastName;
    SearchIsNotZero(w, path);
    if Roomy(w, path) {
      RoomyMknod(w, path, dir, free);
    } else {
      CrowdedIsFull(w, path, dir, free, v, r);
      if |path| < MAX_FILE_NAME {
        StraddlingPath(w, v, path);
      } else {
        LongIsRefused(v, path);
      }
    }
  }

  lemma LongIsRefused(w: World, path: seq<int>)
    requires |path| >= MAX_FILE_NAME
    ensures SearchInode(w, path) == ENAMETOOLONG
  {
  }

  lemma SearchIsNotZero(w: World, path: seq<int>)
    requires Tree(w) && Clean(path)
    ensures SearchInode(w, path) != 0
  {
    hide Tree, Search, Walk, SingleSlashes;
    RootIsThere(w);
    if |path| < MAX_FILE_NAME {
      SearchIsWalk(w, path);
      WalkStays(w, ROOT, PathNames(path));
    }
  }

  lemma RoomyMknod(w: World, path: seq<int>, dir: bool, free: nat)
    requires Tree(w) && Proper(path) && Mknod(w, path, dir, free).1 == 0 && Roomy(w, path)
    ensures FreeInode(w) < |w| && SearchParent(w, path) >= 0
    ensures var v := Mknod(w, path, dir, free).0;
            && (SearchInode(v, path) == FreeInode(w) <==> IsDir(w, SearchParent(w, path)) && |path| < MAX_FILE_NAME)
            && (Tree(v) <==> IsDir(w, SearchParent(w, path)) && NewName(w, path) && (dir ==> free > 0))
  {
    hide Tree, Search, Walk, SingleSlashes, PlainName, HasSlot;
    var v, p, j := Mknod(w, path, dir, free).0, SearchParent(w, path), FreeInode(w);
    if !IsDir(w, p) {
      LeakedInode(w, path, dir, free);
    } else {
      MknodLinks(w, path, dir, free);
      if |path| < MAX_FILE_NAME {
        ShortIsNew(w, path, dir, free);
        LinkedPath(w, path, dir, free);
      }
      if dir && free == 0 {
        NoDots(v, j);
      } else if NewName(w, path) {
        LinkedKeepsTree(w, p, LastName(path), j, dir, free > 0);
      } else {
        NamedTwice(w, p, LastName(path), j, dir, free > 0);
      }
    }
  }

  /** A name entered a second time. */
  lemma NamedTwice(w: World, p: nat, name: seq<int>, j: nat, dir: bool, room: bool)
    requires Tree(w) && Live(w, p) && IsDir(w, p) && Lookup(w[p].slots, name) != 0 && 2 <= j < |w| && !w[j].used
    ensures !Tree(Linked(w, p, name, j, dir, room))
  {
    hide AllReached, EntriesRight, OneEntryEach, Dotted;
    var slots, more := w[p].slots, Insert(w[p].slots, j, name);
    var k, f := First(slots, Named(name)), First(slots, Free);
    assert more[k] == slots[k] && more[f] == Slot(j, name);
    assert !Unique(more);
    var v := Linked(w, p, name, j, dir, room);
    assert v[p].slots == more && Live(v, p) && IsDir(v, p);
    assert !DotsRight(v);
  }

  /** A path of 256 to 510 bytes can be created but not found, and created again.  One that is longer
      has no parent, as the parent's path has less than 256 bytes, and so has the name. */
  lemma LongPathIsLost(w: World, path: seq<int>, dir: bool, free: nat, v: World, r: int)
    requires Tree(w) && Proper(path) && MAX_FILE_NAME <= |path| && Creates(w, path, dir, free, v, r)
    requires IsDir(w, SearchParent(w, path)) && FreeInode(w) < |w|
    ensures |path| <= 510
    ensures r == 0 <==> Roomy(w, path) || free > 0
    ensures r == 0 ==> SearchInode(v, path) == ENAMETOOLONG && (Tree(v) ==> !NewName(v, path)) && (!NewName(w, path) ==> !Tree(v))
  {
    hide Tree, Search, Walk, SingleSlashes, PlainName, Crowded, HasSlot;
    RootIsThere(w);
    ParentIsThere(w, path);
    LengthIsSplit(path);
    var p, j, name := SearchParent(w, path), FreeInode(w), LastName(path);
    DotsAreLive(w, p);
    hide LastName, ParentPath;
    if !Roomy(w, path) {
      CrowdedIsFull(w, path, dir, free, v, r);
    } else {
      RoomyMknod(w, path, dir, free);
      MknodLinks(w, path, dir, free);
      if Tree(v) {
        LinkedSearch(w, p, name, j, dir, free > 0, ParentPath(path));
        LookupAfterInsert(w[p].slots, j, name, name);
      }
    }
  }

  lemma LengthIsSplit(path: seq<int>)
    requires Clean(path)
    ensures |path| == |ParentPath(path)| + |LastName(path)|
  {
  }

  lemma LinkedPath(w: World, path: seq<int>, dir: bool, free: nat)
    requires Tree(w) && Clean(path) && |path| < MAX_FILE_NAME && IsDir(w, SearchParent(w, path))
    requires CanLink(w, SearchParent(w, path), LastName(path), FreeInode(w))
    ensures SearchInode(Linked(w, SearchParent(w, path), LastName(path), FreeInode(w), dir, free > 0), path) == FreeInode(w)
  {
    hide Tree, Search, Walk, Takes, SingleSlashes;
    var p, name, j := SearchParent(w, path), LastName(path), FreeInode(w);
    var v := Linked(w, p, name, j, dir, free > 0);
    RootIsThere(w);
    SearchSplits(w, path);
    var names :| p == Walk(w, ROOT, names) && PathNames(path) == names + [name];
    LinkedWalk(w, p, name, j, dir, free > 0, names);
    LinkedIsRewired(w, p, name, j, dir, free > 0);
    SearchIsWalk(v, path);
    WalkSnoc(v, ROOT, names, name);
  }

  /** A directory without its dots. */
  lemma NoDots(v: World, j: nat)
    requires Live(v, j) && IsDir(v, j) && v[j].slots == []
    ensures !Tree(v)
  {
    hide AllReached, EntriesRight, OneEntryEach, Unique;
    assert !Dotted(v, j);
  }

  /** Under a regular file the call succeeds, and the new inode has no name. */
  lemma LeakedInode(w: World, path: seq<int>, dir: bool, free: nat)
    requires Tree(w) && Clean(path) && Mknod(w, path, dir, free).1 == 0 && !IsDir(w, SearchParent(w, path))
    ensures var v := Mknod(w, path, dir, free).0;
            !Tree(v) && SearchInode(v, path) != FreeInode(w) && Live(v, FreeInode(w)) && !Reached(v, FreeInode(w))
  {
    hide Tree, Search, Walk, SingleSlashes;
    var v, j := Mknod(w, path, dir, free).0, FreeInode(w);
    assert v == w[j := Fresh(j, SearchParent(w, path), dir, free > 0)];
    RootIsThere(w);
    forall names: seq<seq<int>>
      ensures Walk(v, ROOT, names) == Walk(w, ROOT, names) && Walk(v, ROOT, names) != j
    {
      UnnamedWalk(w, v, j, ROOT, names);
    }
    if |path| < MAX_FILE_NAME {
      SearchIsWalk(v, path);
    }
    assert !Reached(v, j);
    if Tree(v) {
      TreeReaches(v, j);
    }
  }

  lemma TreeReaches(w: World, j: nat)
    requires Tree(w) && 2 <= j && Live(w, j)
    ensures Reached(w, j)
  {
  }

  lemma {:induction false} UnnamedWalk(w: World, v: World, j: nat, r: int, names: seq<seq<int>>)
    requires Tree(w) && j < |w| == |v| && !w[j].used && v == w[j := v[j]] && (r >= 0 ==> Live(w, r))
    ensures Walk(v, r, names) == Walk(w, r, names) && Walk(v, r, names) != j
    decreases |names|
  {
    hide Tree;
    if |names| > 0 {
      if r >= 0 {
        StepStays(w, r, names[0]);
      }
      UnnamedWalk(w, v, j, Step(w, r, names[0]), names[1..]);
    }
  }

  /** Creating changes no path that led somewhere, and what is refused changes nothing. */
  lemma MknodKeepsPaths(w: World, path: seq<int>, dir: bool, free: nat, v: World, r: int, q: seq<int>)
    requires Tree(w) && Clean(path) && Creates(w, path, dir, free, v, r)
    ensures r == 0 && IsDir(w, SearchParent(w, path)) && NewName(w, path) && SearchInode(w, q) > 0 ==> SearchInode(v, q) == SearchInode(w, q)
    ensures r == 0 && |path| < MAX_FILE_NAME ==> NewName(w, path)
    ensures r != 0 ==> v == w
    ensures r == 0 <==> SearchInode(w, path) < 0 && SearchParent(w, path) >= 0 && FreeInode(w) < |w| && (Roomy(w, path) || free > 0)
  {
    hide Tree, Search, Walk, SingleSlashes, PlainName, Crowded, HasSlot, LastName, SearchInode, NewInode;
    SearchIsNotZero(w, path);
    if Roomy(w, path) || SearchInode(w, path) > 0 {
      RoomyKeepsPaths(w, path, dir, free, q);
    } else {
      CrowdedIsFull(w, path, dir, free, v, r);
      if r == 0 && SearchInode(w, q) > 0 {
        StraddlingSearch(w, v, path, q);
      }
      AbsentIsNew(w, path);
    }
  }

  lemma RoomyKeepsPaths(w: World, path: seq<int>, dir: bool, free: nat, q: seq<int>)
    requires Tree(w) && Clean(path)
    ensures var (v, r) := Mknod(w, path, dir, free);
            && (r == 0 && IsDir(w, SearchParent(w, path)) && NewName(w, path) && SearchInode(w, q) > 0 ==>
                  SearchInode(v, q) == SearchInode(w, q))
            && (r == 0 && |path| < MAX_FILE_NAME ==> NewName(w, path))
            && (r != 0 ==> v == w)
            && (r == 0 <==> SearchInode(w, path) < 0 && SearchParent(w, path) >= 0 && FreeInode(w) < |w|)
  {
    hide Tree, Search, Walk, SingleSlashes, PlainName;
    RootIsThere(w);
    SearchSplits(w, path);
    if SearchParent(w, path) >= 0 {
      ParentIsThere(w, path);
      StepStays(w, SearchParent(w, path), LastName(path));
      if IsDir(w, SearchParent(w, path)) {
        DotsAreLive(w, SearchParent(w, path));
      }
    }
    var (v, r) := Mknod(w, path, dir, free);
    if r == 0 && |path| < MAX_FILE_NAME {
      ShortIsNew(w, path, dir, free);
    }
    if r == 0 && IsDir(w, SearchParent(w, path)) && NewName(w, path) && SearchInode(w, q) > 0 {
      MknodLinks(w, path, dir, free);
      LinkedSearch(w, SearchParent(w, path), LastName(path), FreeInode(w), dir, free > 0, q);
    }
  }

  /** Whether looking up `q` passes through the last entry of `path`. */
  ghost predicate Through(w: World, q: seq<int>, path: seq<int>)
    requires Clean(path)
  {
    0 < |q| < MAX_FILE_NAME && SearchParent(w, path) >= 0 && Takes(w, ROOT, Names(Stripped(q)), SearchParent(w, path), LastName(path))
  }

  /** What removing a file or a directory does, by way of either call. */
  ghost predicate Removes(w: World, path: seq<int>, call: (World, int), q: seq<int>)
    requires Clean(path)
  {
    && (call.1 != 0 ==> call.0 == w)
    && (call.1 == 0 ==> Tree(call.0) && SearchInode(call.0, path) == ENOENT)
    && (call.1 == 0 ==> SearchInode(call.0, q) == if Through(w, q, path) then ENOENT else SearchInode(w, q))
  }

  lemma RemoveForgetsPath(w: World, path: seq<int>, q: seq<int>)
    requires Tree(w) && Proper(path) && SearchInode(w, path) > 0
    requires IsDir(w, SearchInode(w, path)) ==> SearchInode(w, path) < |w| && DirIsEmpty(w[SearchInode(w, path)].slots)
    ensures SearchInode(w, path) < |w| && Removes(w, path, RemoveInode(w, path, SearchInode(w, path)), q)
    ensures RemoveInode(w, path, SearchInode(w, path)).1 == 0
  {
    hide Tree, Search, Walk, Takes, SingleSlashes, PlainName;
    RootIsThere(w);
    SearchSplits(w, path);
    ParentIsThere(w, path);
    var p, name, j := SearchParent(w, path), LastName(path), SearchInode(w, path);
    UnlinkedKeepsTree(w, p, name, j);
    assert RemoveInode(w, path, j) == (Unlinked(w, p, name, j), 0);
    hide RemoveInode, Unlinked;
    UnlinkedSearch(w, p, name, j, q);
    UnlinkedSearch(w, p, name, j, path);
    var names :| p == Walk(w, ROOT, names) && PathNames(path) == names + [name];
    TakesItself(w, ROOT, names, p, name);
  }

  lemma UnlinkedSearch(w: World, p: nat, name: seq<int>, j: nat, q: seq<int>)
    requires CanUnlink(w, p, name, j)
    ensures j < |w|
    ensures SearchInode(Unlinked(w, p, name, j), q) ==
              if 0 < |q| < MAX_FILE_NAME && Takes(w, ROOT, Names(Stripped(q)), p, name) then ENOENT else SearchInode(w, q)
  {
    hide Tree, Search, Walk, Takes;
    var f := UnlinkedEntries(w, p, name, j);
    if 0 < |q| < MAX_FILE_NAME {
      var s := Stripped(q);
      SearchIsFold(w, s, ROOT);
      SearchIsFold(Unlinked(w, p, name, j), s, ROOT);
      UnlinkedWalk(w, p, name, j, Names(s));
    }
  }

  lemma {:induction false} TakesItself(w: World, r: int, names: seq<seq<int>>, p: nat, name: seq<int>)
    requires Walk(w, r, names) == p
    ensures Takes(w, r, names + [name], p, name)
    decreases |names|
  {
    if |names| > 0 {
      assert (names + [name])[1..] == names[1..] + [name];
      TakesItself(w, Step(w, r, names[0]), names[1..], p, name);
    }
  }

  /** Removing makes exactly the paths through the entry fail. */
  lemma UnlinkForgetsItsPath(w: World, path: seq<int>, q: seq<int>)
    requires Tree(w) && Proper(path)
    ensures Removes(w, path, Unlink(w, path), q)
    ensures Unlink(w, path).1 == 0 <==> SearchInode(w, path) > 0 && !IsDir(w, SearchInode(w, path))
  {
    hide Tree, Search, Walk, SingleSlashes, PlainName, Removes;
    RefusedChangesNothing(w, path, Unlink(w, path), q);
    if SearchInode(w, path) > 0 && !IsDir(w, SearchInode(w, path)) {
      RemoveForgetsPath(w, path, q);
    }
  }

  lemma RmdirForgetsItsPath(w: World, path: seq<int>, q: seq<int>)
    requires Tree(w) && Proper(path)
    ensures Removes(w, path, Rmdir(w, path), q)
    ensures Rmdir(w, path).1 == 0 <==>
              var j := SearchInode(w, path); j > 0 && IsDir(w, j) && forall k: nat :: !Entry(w, j, k)
  {
    hide Tree, Search, Walk, SingleSlashes, PlainName, Removes;
    RefusedChangesNothing(w, path, Rmdir(w, path), q);
    var j := SearchInode(w, path);
    if j > 0 && IsDir(w, j) {
      RootIsThere(w);
      SearchIsWalk(w, path);
      WalkStays(w, ROOT, PathNames(path));
      DirIsEmptyExactly(w, j);
      if DirIsEmpty(w[j].slots) {
        RemoveForgetsPath(w, path, q);
      }
    }
  }

  lemma RefusedChangesNothing(w: World, path: seq<int>, call: (World, int), q: seq<int>)
    requires Clean(path)
    ensures call.1 != 0 && call.0 == w ==> Removes(w, path, call, q)
  {
  }

  /** Each directory is a finite map: creating adds the name to the parent's map, and a new
      directory maps its dots to itself and to its parent. */
  lemma MknodIsMapUpdate(w: World, path: seq<int>, dir: bool, free: nat, d: nat)
    requires Tree(w) && Clean(path) && Mknod(w, path, dir, free).1 == 0 && IsDir(w, SearchParent(w, path)) && d < |w|
    requires NewName(w, path) && HasSlot(w[SearchParent(w, path)].slots)
    ensures var v, p, j, name := Mknod(w, path, dir, free).0, SearchParent(w, path), FreeInode(w), LastName(path);
            && |v| == |w| && p != j
            && Contents(v[d].slots) == if d == p then Contents(w[p].slots)[name := j]
                                       else if d == j then (if dir && free > 0 then map[DOT := j, DOTDOT := p] else map[])
                                       else Contents(w[d].slots)
  {
    hide Tree, Search, Walk, SingleSlashes, Contents, Insert;
    var p, j, name := SearchParent(w, path), FreeInode(w), LastName(path);
    MknodLinks(w, path, dir, free);
    DotsAreLive(w, p);
    if d == p {
      InsertIsMap(w[p].slots, j, name);
    } else if d == j {
      DotsAsMap(j, p);
    }
  }

  lemma DotsAsMap(j: nat, p: int)
    requires j != 0 && p != 0
    ensures Contents([Slot(j, DOT), Slot(p, DOTDOT)]) == map[DOT := j, DOTDOT := p] && Contents([]) == map[]
  {
    var slots := [Slot(j, DOT), Slot(p, DOTDOT)];
    LookupIsLive(slots, 0);
    LookupIsLive(slots, 1);
    assert slots[0] in slots && slots[1] in slots;
  }

  /** Removing takes the name out of the parent's map and leaves every other directory as it is. */
  lemma RemoveIsMapUpdate(w: World, p: nat, name: seq<int>, j: nat, d: nat)
    requires CanUnlink(w, p, name, j) && d < |w| && d != j
    ensures j < |w| && Contents(Unlinked(w, p, name, j)[d].slots) == if d == p then Contents(w[p].slots) - {name} else Contents(w[d].slots)
  {
    hide Tree, Contents, Erase;
    var f := UnlinkedEntries(w, p, name, j);
    DotsAreLive(w, p);
    EraseIsMap(w[p].slots, name);
  }

  // ---------------------------------------------------------------- why a call is refused

  /** Following the first `k` of these names leads to a file, which cannot be gone through. */
  predicate FileOnTheWay(w: World, names: seq<seq<int>>, k: nat) {
    k < |names| && Walk(w, ROOT, names[..k]) >= 0 && !IsDir(w, Walk(w, ROOT, names[..k]))
  }

  /** ... leads to a directory that does not have the next. */
  predicate NameMissing(w: World, names: seq<seq<int>>, k: nat) {
    k < |names| && IsDir(w, Walk(w, ROOT, names[..k])) && Lookup(w[Walk(w, ROOT, names[..k])].slots, names[k]) == 0
  }

  /** A path fails for one of two reasons, and the error says which. */
  lemma {:induction false} WalkFailsExactly(w: World, names: seq<seq<int>>)
    requires Tree(w)
    ensures Walk(w, ROOT, names) < 0 ==> Walk(w, ROOT, names) == ENOTDIR || Walk(w, ROOT, names) == ENOENT
    ensures Walk(w, ROOT, names) == ENOTDIR <==> exists k: nat :: FileOnTheWay(w, names, k)
    ensures Walk(w, ROOT, names) == ENOENT <==> exists k: nat :: NameMissing(w, names, k)
    decreases |names|
  {
    hide Tree, Step, Walk;
    RootIsThere(w);
    if |names| == 0 {
      WalkNothing(w, ROOT);
      assert names == [];
    } else {
      var n := |names| - 1;
      var init, last := names[..n], names[n];
      assert names == init + [last];
      WalkSnoc(w, ROOT, init, last);
      WalkFailsExactly(w, init);
      WalkStays(w, ROOT, init);
      assert forall k: nat | k <= n :: names[..k] == init[..k];
      assert init[..n] == init;
      FailsAtLast(w, names, init);
      var d := Walk(w, ROOT, init);
      if d >= 0 {
        StepStays(w, d, last);
        DirsHaveNames(w, d, last);
      } else {
        StepError(w, d, last);
      }
    }
  }

  lemma FailsAtLast(w: World, names: seq<seq<int>>, init: seq<seq<int>>)
    requires |names| == |init| + 1 && names[..|init|] == init
    ensures (exists k: nat :: FileOnTheWay(w, names, k)) <==> FileOnTheWay(w, names, |init|) || exists k: nat :: FileOnTheWay(w, init, k)
    ensures (exists k: nat :: NameMissing(w, names, k)) <==> NameMissing(w, names, |init|) || exists k: nat :: NameMissing(w, init, k)
  {
    hide Walk;
    assert forall k: nat | k < |init| :: names[..k] == init[..k] && names[k] == init[k];
    forall k: nat | k < |init|
      ensures (FileOnTheWay(w, names, k) <==> FileOnTheWay(w, init, k)) && (NameMissing(w, names, k) <==> NameMissing(w, init, k))
    {
      assert names[..k] == init[..k];
    }
  }

  lemma DirsHaveNames(w: World, d: int, name: seq<int>)
    requires d >= 0
    ensures Step(w, d, name) >= 0 ==> IsDir(w, d) && Lookup(w[d].slots, name) != 0
    ensures IsDir(w, d) && Lookup(w[d].slots, name) == 0 ==> Step(w, d, name) == ENOENT
  {
  }

  lemma StepError(w: World, d: int, name: seq<int>)
    requires d < 0
    ensures Step(w, d, name) == d && !IsDir(w, d)
  {
  }

  /** unlink refuses a directory, and otherwise only a path that leads nowhere, with the reason. */
  lemma UnlinkCodesExactly(w: World, path: seq<int>)
    requires Tree(w) && Proper(path) && |path| < MAX_FILE_NAME
    ensures var r, names := Unlink(w, path).1, PathNames(path);
            && (r == EISDIR <==> SearchInode(w, path) > 0 && IsDir(w, SearchInode(w, path)))
            && (r == ENOTDIR <==> exists k: nat :: FileOnTheWay(w, names, k))
            && (r == ENOENT <==> exists k: nat :: NameMissing(w, names, k))
            && r in {0, EISDIR, ENOTDIR, ENOENT}
  {
    hide Tree, Search, Walk, SingleSlashes, PlainName, RemoveInode, Removes;
    SearchIsWalk(w, path);
    SearchIsNotZero(w, path);
    WalkFailsExactly(w, PathNames(path));
    UnlinkForgetsItsPath(w, path, path);
    RootIsThere(w);
    WalkStays(w, ROOT, PathNames(path));
  }

  /** rmdir refuses a file and a directory with entries, and otherwise likewise. */
  lemma RmdirCodesExactly(w: World, path: seq<int>)
    requires Tree(w) && Proper(path) && |path| < MAX_FILE_NAME
    ensures var r, j, names := Rmdir(w, path).1, SearchInode(w, path), PathNames(path);
            && (r == ENOTEMPTY <==> j > 0 && IsDir(w, j) && exists k: nat :: Entry(w, j, k))
            && (r == ENOTDIR <==> (j > 0 && !IsDir(w, j)) || exists k: nat :: FileOnTheWay(w, names, k))
            && (r == ENOENT <==> exists k: nat :: NameMissing(w, names, k))
            && r in {0, ENOTEMPTY, ENOTDIR, ENOENT}
  {
    hide Tree, Search, Walk, SingleSlashes, PlainName, RemoveInode, Removes;
    SearchIsWalk(w, path);
    SearchIsNotZero(w, path);
    WalkFailsExactly(w, PathNames(path));
    RmdirForgetsItsPath(w, path, path);
    RootIsThere(w);
    WalkStays(w, ROOT, PathNames(path));
    var j := SearchInode(w, path);
    if j > 0 && IsDir(w, j) {
      DirIsEmptyExactly(w, j);
    }
  }

  /** mknod and mkdir say that the path is there, or why its parent is not, or what has run out. */
  lemma MknodCodesExactly(w: World, path: seq<int>, dir: bool, free: nat, v: World, r: int)
    requires Tree(w) && Proper(path) && |path| < MAX_FILE_NAME && Creates(w, path, dir, free, v, r)
    ensures var p := SearchParent(w, path);
            && (r == EEXIST <==> SearchInode(w, path) > 0)
            && (r == Fs.ENOMEM <==> SearchInode(w, path) < 0 && p >= 0 && FreeInode(w) == |w|)
            && (r == Fs.ENOSPC <==> SearchInode(w, path) < 0 && p >= 0 && FreeInode(w) < |w| && !Roomy(w, path) && free == 0)
            && (r == ENOTDIR || r == ENOENT ==> r == p) && (p < 0 ==> r == p && (p == ENOTDIR || p == ENOENT))
            && r in {0, EEXIST, Fs.ENOMEM, Fs.ENOSPC, ENOTDIR, ENOENT}
  {
    hide Tree, Search, Walk, SingleSlashes, PlainName, SearchInode, SearchParent, LastName, HasSlot, Linked, Fresh, FullBlock;
    SearchIsNotZero(w, path);
    MknodKeepsPaths(w, path, dir, free, v, r, path);
    RootIsThere(w);
    SearchSplits(w, path);
    var names :| SearchParent(w, path) == Walk(w, ROOT, names) && PathNames(path) == names + [LastName(path)];
    WalkFailsExactly(w, names);
    if SearchParent(w, path) < 0 {
      StepError(w, SearchParent(w, path), LastName(path));
      assert Roomy(w, path);
    } else if Roomy(w, path) {
      ParentIsThere(w, path);
      if IsDir(w, SearchParent(w, path)) {
        DotsAreLive(w, SearchParent(w, path));
      }
    } else {
      ParentIsThere(w, path);
      if SearchInode(w, path) < 0 {
        CrowdedIsFull(w, path, dir, free, v, r);
        CrowdedCodes(w, path, dir, free, v, r);
      }
    }
  }

  lemma CrowdedCodes(w: World, path: seq<int>, dir: bool, free: nat, v: World, r: int)
    requires |path| > 0 && path[0] == SLASH && |w| > 2 && Crowded(w, path, dir, free, v, r) && IsDir(w, SearchParent(w, path))
    requires |w[SearchParent(w, path)].slots| == PER_BLOCK
    ensures r != 0 ==> r == if FreeInode(w) == |w| then Fs.ENOMEM else Fs.ENOSPC
  {
  }

  // ---------------------------------------------------------------- what the guards are for

  /** A path that ends in a slash gives its parent an entry without a name, which no lookup of the
      path finds. */
  lemma TrailingSlashNamesNothing(w: World, path: seq<int>, dir: bool, free: nat)
    requires Tree(w) && Clean(path) && |path| + 1 < MAX_FILE_NAME && SearchInode(w, path) < 0
    requires IsDir(w, SearchParent(w, path)) && HasSlot(w[SearchParent(w, path)].slots) && FreeInode(w) < |w|
    ensures Mknod(w, path + [SLASH], dir, free).1 == 0
    ensures var v := Mknod(w, path + [SLASH], dir, free).0;
            SearchInode(v, path + [SLASH]) < 0 && SearchInode(v, path) < 0 && !Tree(v)
  {
    hide Tree, Walk, Search, Takes, SingleSlashes, Linked;
    var long, p, j := path + [SLASH], SearchParent(w, path), FreeInode(w);
    assert Stripped(long) == path[1..] == Stripped(path);
    SlashOnly(path);
    RootIsThere(w);
    ParentIsThere(w, path);
    NoEntryIsNameless(w, p);
    DotsAreLive(w, p);
    assert Mknod(w, long, dir, free) == (Linked(w, p, [], j, dir, free > 0), 0);
    NamelessLink(w, path, p, j, dir, free > 0);
  }

  lemma NamelessLink(w: World, path: seq<int>, p: nat, j: nat, dir: bool, room: bool)
    requires Clean(path) && |path| < MAX_FILE_NAME && SearchInode(w, path) < 0 && CanLink(w, p, [], j)
    ensures var v := Linked(w, p, [], j, dir, room); SearchInode(v, path) < 0 && !Tree(v)
  {
    hide Tree, Walk, Search, Takes;
    var v, names := Linked(w, p, [], j, dir, room), PathNames(path);
    LinkedWalk(w, p, [], j, dir, room, names);
    assert SingleSlashes(path[1..]);
    NamesAreNotEmpty(path[1..]);
    if Takes(w, ROOT, names, p, []) {
      TakesNeedsName(w, ROOT, names, p, []);
    }
    SearchIsWalk(w, path);
    SearchIsWalk(v, path);
    var f := LinkedEntries(w, p, [], j, dir, room);
    assert !EntryRight(v, p, f);
    if Tree(v) {
      EntryFacts(v, p, f);
    }
  }

  lemma SlashOnly(path: seq<int>)
    requires Clean(path)
    ensures var long := path + [SLASH]; LastName(long) == [] && ParentPath(long) == ParentPath(path)
  {
    var long, n := path + [SLASH], |path|;
    var e := LastSlash(path, n - 1);
    var f := LastSlash(long, n - 1);
    assert long[e] == path[e] && long[f] == path[f];
    assert e == f;
    assert long[..e + 1] == path[..e + 1];
    assert LastSlash(long, n) == n;
  }

  lemma NoEntryIsNameless(w: World, d: nat)
    requires Tree(w) && Live(w, d) && IsDir(w, d)
    ensures Lookup(w[d].slots, []) == 0
  {
    hide Tree;
    DotsAreLive(w, d);
    var k := First(w[d].slots, Named([]));
    if k < |w[d].slots| {
      if k >= 2 {
        EntryFacts(w, d, k);
      }
      assert false;
    }
  }

  lemma {:induction false} NamesAreNotEmpty(s: seq<int>)
    requires |s| > 0 ==> s[0] != SLASH && s[|s| - 1] != SLASH
    requires SingleSlashes(s)
    ensures [] !in Names(s)
    decreases |s|
  {
    if |s| > 0 {
      var n := NameLen(s);
      hide NameLen;
      if n < |s| {
        NamesCons(s, n);
        hide Names;
        var rest := s[n + 1..];
        assert s[n] == SLASH && rest[0] == s[n + 1];
        assert forall i: nat | i < |rest| :: rest[i] == s[n + 1 + i];
        NamesAreNotEmpty(rest);
      } else {
        NamesOne(s);
      }
    }
  }

  lemma {:induction false} TakesNeedsName(w: World, r: int, names: seq<seq<int>>, p: nat, name: seq<int>)
    requires Takes(w, r, names, p, name)
    ensures name in names
    decreases |names|
  {
    if !(r == p && names[0] == name) {
      TakesNeedsName(w, Step(w, r, names[0]), names[1..], p, name);
    }
  }

  /** rmdir of "d/." takes the dot out of d and frees d, whose own entry stays.  A mounted file system
      is never handed a path with "." or ".." in it: this is said of the routine alone. */
  lemma RmdirDotDangles(w: World, path: seq<int>) returns (p: nat, k: nat)
    requires Tree(w) && Clean(path) && |path| + 2 < MAX_FILE_NAME && SearchInode(w, path) > ROOT
    requires IsDir(w, SearchInode(w, path)) && DirIsEmpty(w[SearchInode(w, path)].slots)
    ensures var (v, r) := Rmdir(w, path + [SLASH] + DOT);
            r == 0 && !Tree(v) && Entry(v, p, k) && Target(v, p, k) == SearchInode(w, path) && !Live(v, Target(v, p, k))
  {
    hide Tree, Walk, Search;
    var long, d := path + [SLASH] + DOT, SearchInode(w, path);
    RootIsThere(w);
    DotIsItself(w, path);
    SearchIsWalk(w, path);
    WalkStays(w, ROOT, PathNames(path));
    DotsAreLive(w, d);
    DirIsEmptyExactly(w, d);
    LookupIsLive(w[d].slots, 0);
    p := Target(w, d, 1);
    k :| Entry(w, p, k) && Target(w, p, k) == d;
    var v := Rmdir(w, long).0;
    assert v == Unlinked(w, d, DOT, d);
    if Tree(v) {
      EntryFacts(v, p, k);
    }
  }

  lemma DotIsItself(w: World, path: seq<int>)
    requires Tree(w) && Clean(path) && |path| + 2 < MAX_FILE_NAME && SearchInode(w, path) > 0 && IsDir(w, SearchInode(w, path))
    ensures var long := path + [SLASH] + DOT;
            Clean(long) && LastName(long) == DOT && SearchParent(w, long) == SearchInode(w, long) == SearchInode(w, path)
  {
    hide Tree, Walk, Search;
    var long, n, d := path + [SLASH] + DOT, |path|, SearchInode(w, path);
    RootIsThere(w);
    assert Clean(long);
    assert LastSlash(long, n + 1) == LastSlash(long, n) == n;
    assert ParentPath(long) == path + [SLASH];
    assert (path + [SLASH])[1..n] == path[1..];
    SearchSplits(w, long);
    SearchIsWalk(w, path);
    WalkStays(w, ROOT, PathNames(path));
    DotsAreLive(w, d);
    LookupIsLive(w[d].slots, 0);
  }

  /** `v` is `w` after `path` was created in a directory whose first block was full: the new entry
      lies across two blocks, and iteration sees something else at the end. */
  ghost predicate Straddles(w: World, v: World, path: seq<int>)
    requires |path| > 0 && path[0] == SLASH && |w| > 2
  {
    var p, j := SearchParent(w, path), FreeInode(w);
    && |v| == |w| && IsDir(w, p) && j < |w| && (forall q: nat | q < |w| && q != p && q != j :: v[q] == w[q])
    && v[p].dir && SeenBehind(w[p].slots, v[p].slots, LastName(path))
  }

  /** In a directory with one full block creating succeeds if there is another block, and the path
      does not resolve; every path that did still does. */
  lemma StraddlingNameIsLost(w: World, path: seq<int>, dir: bool, free: nat, v: World, r: int, q: seq<int>)
    requires Tree(w) && Clean(path) && |path| < MAX_FILE_NAME && SearchInode(w, path) < 0 && FreeInode(w) < |w| && free > 0
    requires IsDir(w, SearchParent(w, path)) && !HasSlot(w[SearchParent(w, path)].slots) && Creates(w, path, dir, free, v, r)
    ensures r == 0 && SearchInode(v, path) == ENOENT && !Tree(v)
    ensures SearchInode(w, q) > 0 ==> SearchInode(v, q) == SearchInode(w, q)
  {
    hide Tree, SearchInode, SearchParent, Creates, Straddles, HasSlot, SingleSlashes, LastName;
    CrowdedIsFull(w, path, dir, free, v, r);
    StraddlingPath(w, v, path);
    if SearchInode(w, q) > 0 {
      StraddlingSearch(w, v, path, q);
    }
  }

  lemma StraddlingPath(w: World, v: World, path: seq<int>)
    requires Tree(w) && Clean(path) && |path| < MAX_FILE_NAME && SearchInode(w, path) < 0 && Straddles(w, v, path)
    ensures SearchInode(v, path) == ENOENT
  {
    hide Tree, Search, Walk, SingleSlashes, Straddles;
    RootIsThere(w);
    SearchSplits(w, path);
    ParentIsLookedUp(w, v, path);
    var p, name := SearchParent(w, path), LastName(path);
    var names :| p == Walk(w, ROOT, names) && PathNames(path) == names + [name];
    WalkSeen(w, v, path, ROOT, names);
    SearchIsWalk(v, path);
    WalkSnoc(v, ROOT, names, name);
  }

  lemma StraddlingSearch(w: World, v: World, path: seq<int>, q: seq<int>)
    requires Tree(w) && Clean(path) && Straddles(w, v, path) && SearchInode(w, q) > 0
    ensures SearchInode(v, q) == SearchInode(w, q)
  {
    hide Tree, Search, Walk, SingleSlashes, Straddles;
    RootIsThere(w);
    SearchIsFold(w, Stripped(q), ROOT);
    SearchIsFold(v, Stripped(q), ROOT);
    WalkSeen(w, v, path, ROOT, Names(Stripped(q)));
    WalkStays(w, ROOT, Names(Stripped(q)));
    SameDirs(w, v, path, SearchInode(w, q));
  }

  lemma SameDirs(w: World, v: World, path: seq<int>, i: nat)
    requires |path| > 0 && path[0] == SLASH && |w| > 2 && Straddles(w, v, path) && Live(w, i)
    ensures IsDir(v, i) == IsDir(w, i)
  {
  }

  lemma ParentIsLookedUp(w: World, v: World, path: seq<int>)
    requires Tree(w) && Clean(path) && |path| < MAX_FILE_NAME && SearchInode(w, path) < 0 && Straddles(w, v, path)
    ensures SearchParent(w, path) >= ROOT && Step(v, SearchParent(w, path), LastName(path)) == ENOENT
  {
    hide Tree;
    RootIsThere(w);
    SearchSplits(w, path);
    ParentIsThere(w, path);
    var p, name := SearchParent(w, path), LastName(path);
    StepStays(w, p, name);
    LookupSeen(w[p].slots, v[p].slots, name, name);
  }

  /** Iteration stops at the first entry it is looking for, so what is behind does not matter. */
  lemma LookupSeen(slots: seq<Slot>, more: seq<Slot>, name: seq<int>, n: seq<int>)
    requires SeenBehind(slots, more, name)
    ensures Lookup(slots, n) != 0 ==> Lookup(more, n) == Lookup(slots, n)
    ensures Lookup(slots, n) == 0 && n == name ==> Lookup(more, n) == 0
  {
    var k := First(slots, Named(n));
    FirstIs(more, Named(n), if k < |slots| then k else First(more, Named(n)));
  }

  lemma {:induction false} WalkSeen(w: World, v: World, path: seq<int>, r: int, names: seq<seq<int>>)
    requires Tree(w) && |path| > 0 && path[0] == SLASH && |w| > 2 && Straddles(w, v, path) && (r >= 0 ==> Live(w, r) && r >= ROOT)
    ensures Walk(w, r, names) >= 0 ==> Walk(v, r, names) == Walk(w, r, names)
    decreases |names|
  {
    hide Tree;
    if |names| > 0 {
      var next := Step(w, r, names[0]);
      if next < 0 {
        WalkError(w, next, names[1..]);
      } else {
        StepStays(w, r, names[0]);
        if r == SearchParent(w, path) {
          LookupSeen(w[r].slots, v[r].slots, LastName(path), names[0]);
        }
        WalkSeen(w, v, path, next, names[1..]);
      }
    }
  }

  /** With nothing in it, the root itself is freed by way of its own dots; this, too, is an input no
      mounted file system is handed. */
  lemma RootCanBeRemoved(w: World, dots: seq<int>)
    requires Tree(w) && DirIsEmpty(w[ROOT].slots) && (dots == DOT || dots == DOTDOT)
    ensures |w| > ROOT
    ensures var (v, r) := Rmdir(w, [SLASH] + dots); r == 0 && |v| == |w| && !Live(v, ROOT) && !Tree(v)
  {
    hide Tree, Walk;
    var path := [SLASH] + dots;
    RootIsThere(w);
    assert Clean(path) && LastSlash(path, |path| - 1) == 0;
    assert LastName(path) == dots && ParentPath(path) == [SLASH];
    SearchSplits(w, path);
    assert Stripped([SLASH]) == [];
    assert Search(w, [], ROOT) == ROOT;
    DotsAreLive(w, ROOT);
    LookupIsLive(w[ROOT].slots, 0);
    LookupIsLive(w[ROOT].slots, 1);
    var v := Rmdir(w, path).0;
    assert v == Unlinked(w, ROOT, dots, ROOT);
    if Tree(v) {
      RootIsThere(v);
    }
  }

  // ---------------------------------------------------------------- runs

  datatype Call = MakeNode(path: seq<int>, dir: bool, free: nat) | RemoveFile(path: seq<int>) | RemoveDir(path: seq<int>)

  /** What a caller can see to before the call. */
  predicate Guard(w: World, c: Call) {
    Proper(c.path) && match c
      case MakeNode(path, dir, free) =>
        (dir ==> free > 0) && (SearchParent(w, path) >= 0 ==> IsDir(w, SearchParent(w, path))) && Roomy(w, path) && (SearchInode(w, path) > 0 || NewName(w, path))
      case _ => true
  }

  function Apply(w: World, c: Call): (World, int)
    requires |w| > 2 && |c.path| > 0 && c.path[0] == SLASH
  {
    match c
    case MakeNode(path, dir, free) => Mknod(w, path, dir, free)
    case RemoveFile(path) => Unlink(w, path)
    case RemoveDir(path) => Rmdir(w, path)
  }

  ghost predicate Run(w: World, calls: seq<Call>, v: World)
    decreases |calls|
  {
    if |calls| == 0 then v == w
    else |w| > 2 && Guard(w, calls[0]) && Run(Apply(w, calls[0]).0, calls[1..], v)
  }

  lemma {:induction false} RunAppend(w: World, calls: seq<Call>, v: World, more: seq<Call>, u: World)
    requires Run(w, calls, v) && Run(v, more, u)
    ensures Run(w, calls + more, u)
    decreases |calls|
  {
    hide Apply, Roomy, NewName, SearchInode, SearchParent, PlainName, LastName, SingleSlashes;
    if |calls| == 0 {
      assert calls + more == more;
    } else {
      assert (calls + more)[1..] == calls[1..] + more;
      RunAppend(Apply(w, calls[0]).0, calls[1..], v, more, u);
    }
  }

  lemma ApplyKeepsTree(w: World, c: Call)
    requires Tree(w) && Guard(w, c)
    ensures |w| > 2 && Tree(Apply(w, c).0)
  {
    hide Tree, SearchInode, SearchParent, SingleSlashes, PlainName, NewInode, RemoveInode, HasSlot;
    RootIsThere(w);
    match c
    case MakeNode(path, dir, free) =>
      var (v, r) := Mknod(w, path, dir, free);
      MknodKeepsPaths(w, path, dir, free, v, r, path);
      if r == 0 {
        MknodNamesItsPath(w, path, dir, free, v, r);
      }
    case RemoveFile(path) => UnlinkForgetsItsPath(w, path, path);
    case RemoveDir(path) => RmdirForgetsItsPath(w, path, path);
  }

  /** Whatever is created and removed, in any order, every inode in use has exactly one path
      without dots, and nothing else has any. */
  lemma {:induction false} EveryRunKeepsTree(w: World, calls: seq<Call>, v: World, j: nat)
    requires Tree(w) && Run(w, calls, v)
    ensures Tree(v) && Closed(v)
    ensures ROOT <= j && Live(v, j) ==> exists names :: Plain(names) && Walk(v, ROOT, names) == j &&
                                          forall other | Plain(other) && Walk(v, ROOT, other) == j :: other == names
    ensures !Live(v, j) ==> forall names :: Walk(v, ROOT, names) != j
    decreases |calls|
  {
    hide Tree;
    if |calls| == 0 {
      TreeIsClosed(v);
      if ROOT <= j && Live(v, j) {
        EveryFileHasOnePath(v, j);
      }
      RootIsThere(v);
      forall names
        ensures !Live(v, j) ==> Walk(v, ROOT, names) != j
      {
        WalkStays(v, ROOT, names);
      }
    } else {
      ApplyKeepsTree(w, calls[0]);
      EveryRunKeepsTree(Apply(w, calls[0]).0, calls[1..], v, j);
    }
  }

  /** init_fs. */
  function Boot(n: nat): World
    requires n > 2
  {
    seq(n, i => if i == 0 then Node(true, false, [])
                else if i == ROOT then Node(true, true, [Slot(ROOT, DOT), Slot(ROOT, DOTDOT)]) else Node(false, false, []))
  }

  lemma BootIsTree(n: nat)
    requires n > 2
    ensures Tree(Boot(n))
  {
    var w := Boot(n);
    hide Boot;
    assert |w| == n && w[ROOT] == Node(true, true, [Slot(ROOT, DOT), Slot(ROOT, DOTDOT)]);
    assert forall d: nat, k: nat :: !Entry(w, d, k);
    assert Dotted(w, ROOT);
  }

  /** So it is from an empty file system on. */
  lemma EveryRunFromBootKeepsTree(n: nat, calls: seq<Call>, v: World, j: nat)
    requires n > 2 && Run(Boot(n), calls, v)
    ensures Tree(v) && Closed(v)
    ensures ROOT <= j && Live(v, j) ==> exists names :: Plain(names) && Walk(v, ROOT, names) == j &&
                                          forall other | Plain(other) && Walk(v, ROOT, other) == j :: other == names
    ensures !Live(v, j) ==> forall names :: Walk(v, ROOT, names) != j
  {
    BootIsTree(n);
    EveryRunKeepsTree(Boot(n), calls, v, j);
  }
}
