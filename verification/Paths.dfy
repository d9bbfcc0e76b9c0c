/** Path lookup of fs.c over directories as lists of entries, and what creating and removing does
    to every path.  `Search` follows search_inode_rec; `Walk` is the fold over the names of a path
    that it is proved to be. */
module Paths {
  import Fs
  import opened Dentries

  const ROOT: nat := 1
  const SLASH: int := 47
  const MAX_PATH_LEN: nat := 2048

  const ENOENT: int := -2
  const EEXIST: int := -17
  const ENOTDIR: int := -20
  const EISDIR: int := -21
  const ENAMETOOLONG: int := -36
  const ENOTEMPTY: int := -39

  datatype Node = Node(used: bool, dir: bool, slots: seq<Slot>)

  /** All inodes; only those in use have entries. */
  type World = seq<Node>

  predicate IsDir(w: World, i: int) {
    0 <= i < |w| && w[i].dir
  }

  predicate Live(w: World, i: int) {
    0 <= i < |w| && w[i].used
  }

  // ---------------------------------------------------------------- strings

  /** get_first_file_name. */
  function NameLen(path: seq<int>): (n: nat)
    ensures n <= |path| && (n < |path| ==> path[n] == SLASH)
    ensures forall i: nat | i < n :: path[i] != SLASH
  {
    if |path| == 0 || path[0] == SLASH then 0
    else
      var r := NameLen(path[1..]);
      assert forall i: nat | 0 < i < r + 1 :: path[i] == path[1..][i - 1];
      r + 1
  }

  lemma NameLenIs(path: seq<int>, n: nat)
    requires n <= |path| && (n < |path| ==> path[n] == SLASH) && forall i: nat | i < n :: path[i] != SLASH
    ensures NameLen(path) == n
  {
    var m := NameLen(path);
    assert m <= n;
  }

  predicate NoSlash(s: seq<int>) {
    forall i: nat | i < |s| :: s[i] != SLASH
  }

  /** The names of a path; what ends in a slash has no name behind it. */
  function Names(path: seq<int>): seq<seq<int>> {
    if |path| == 0 then []
    else
      var n := NameLen(path);
      if n == |path| then [path] else [path[..n]] + Names(path[n + 1..])
  }

  lemma NamesOne(s: seq<int>)
    requires |s| > 0 && NoSlash(s)
    ensures Names(s) == [s]
  {
    NameLenIs(s, |s|);
  }

  lemma NamesCons(s: seq<int>, n: nat)
    requires n < |s| && s[n] == SLASH && forall i: nat | i < n :: s[i] != SLASH
    ensures Names(s) == [s[..n]] + Names(s[n + 1..])
  {
    NameLenIs(s, n);
  }

  lemma {:induction false} NamesAfterSlash(q: seq<int>, last: seq<int>)
    requires |q| > 0 && q[|q| - 1] != SLASH && |last| > 0 && NoSlash(last)
    ensures Names(q + [SLASH] + last) == Names(q) + [last]
  {
    hide Names;
    var s, n := q + [SLASH] + last, NameLen(q);
    hide NameLen;
    NamesCons(s, n);
    if n == |q| {
      assert s[..n] == q && s[n + 1..] == last;
      NamesOne(q);
      NamesOne(last);
    } else {
      var rest := q[n + 1..];
      assert s[..n] == q[..n] && s[n + 1..] == rest + [SLASH] + last;
      NamesAfterSlash(rest, last);
      NamesCons(q, n);
    }
  }

  predicate EndsOpen(path: seq<int>) {
    |path| == 0 || path[|path| - 1] == SLASH
  }

  /** The last slash at or before `i`. */
  function LastSlash(path: seq<int>, i: nat): (e: nat)
    requires i < |path| && path[0] == SLASH
    ensures e <= i && path[e] == SLASH && forall k: nat | e < k <= i :: path[k] != SLASH
  {
    if path[i] == SLASH then i else LastSlash(path, i - 1)
  }

  /** What search_parent_directory searches. */
  function ParentPath(path: seq<int>): seq<int>
    requires |path| > 0 && path[0] == SLASH
  {
    if |path| == 1 then path
    else path[..LastSlash(path, if path[|path| - 1] == SLASH then |path| - 2 else |path| - 1) + 1]
  }

  /** extract_last_name_offset. */
  function LastName(path: seq<int>): (s: seq<int>)
    requires |path| > 0 && path[0] == SLASH
    ensures NoSlash(s) && |s| < |path|
  {
    path[LastSlash(path, |path| - 1) + 1..]
  }

  // ---------------------------------------------------------------- lookup

  /** One name, from inode `r` or an error. */
  function Step(w: World, r: int, name: seq<int>): int {
    if r < 0 then r
    else if !IsDir(w, r) then ENOTDIR
    else
      var n := Lookup(w[r].slots, name);
      if n == 0 then ENOENT else n
  }

  function Walk(w: World, r: int, names: seq<seq<int>>): int
    decreases |names|
  {
    if |names| == 0 then r else Walk(w, Step(w, r, names[0]), names[1..])
  }

  /** search_inode_rec. */
  function Search(w: World, path: seq<int>, curr: nat): int
    decreases |path|
  {
    if !IsDir(w, curr) then ENOTDIR
    else if |path| == 0 then curr
    else
      var n := NameLen(path);
      var next := Lookup(w[curr].slots, path[..n]);
      if next < 0 then next
      else if next == 0 then ENOENT
      else if n == |path| then next
      else Search(w, path[n + 1..], next)
  }

  /** What search_inode hands to the recursive search: no first character, no last slash. */
  function Stripped(path: seq<int>): seq<int>
    requires |path| > 0
  {
    if |path| > 1 && path[|path| - 1] == SLASH then path[1..|path| - 1] else path[1..]
  }

  /** search_inode. */
  function SearchInode(w: World, path: seq<int>): int {
    if |path| == 0 then Fs.EINVAL
    else if |path| >= MAX_FILE_NAME then ENAMETOOLONG
    else Search(w, Stripped(path), ROOT)
  }

  function SearchParent(w: World, path: seq<int>): int
    requires |path| > 0 && path[0] == SLASH
  {
    if |path| > MAX_PATH_LEN then ENAMETOOLONG else SearchInode(w, ParentPath(path))
  }

  lemma {:induction false} WalkError(w: World, r: int, names: seq<seq<int>>)
    requires r < 0
    ensures Walk(w, r, names) == r
    decreases |names|
  {
    if |names| > 0 {
      WalkError(w, r, names[1..]);
    }
  }

  lemma {:induction false} WalkAppend(w: World, r: int, a: seq<seq<int>>, b: seq<seq<int>>)
    ensures Walk(w, r, a + b) == Walk(w, Walk(w, r, a), b)
    decreases |a|
  {
    if |a| == 0 {
      assert a + b == b;
    } else {
      assert (a + b)[1..] == a[1..] + b;
      WalkAppend(w, Step(w, r, a[0]), a[1..], b);
    }
  }

  lemma WalkSnoc(w: World, r: int, a: seq<seq<int>>, name: seq<int>)
    ensures Walk(w, r, a + [name]) == Step(w, Walk(w, r, a), name)
  {
    WalkAppend(w, r, a, [name]);
    assert [name][1..] == [];
  }

  function AsDir(w: World, r: int): int {
    if r < 0 || IsDir(w, r) then r else ENOTDIR
  }

  /** The recursive search is a fold over the names; a path that ends in a slash wants a directory. */
  lemma {:induction false} SearchIsFold(w: World, path: seq<int>, curr: nat)
    ensures Search(w, path, curr) ==
              if EndsOpen(path) then AsDir(w, Walk(w, curr, Names(path))) else Walk(w, curr, Names(path))
    decreases |path|
  {
    if |path| > 0 {
      var n := NameLen(path);
      var name := path[..n];
      hide NameLen, Lookup;
      var r := Step(w, curr, name);
      if n < |path| {
        var rest := path[n + 1..];
        NamesCons(path, n);
        hide Names;
        assert ([name] + Names(rest))[1..] == Names(rest);
        if r < 0 {
          WalkError(w, r, Names(rest));
        } else {
          SearchIsFold(w, rest, r);
        }
      } else {
        NamesOne(path);
        hide Names;
        assert name == path && [path][1..] == [];
      }
    }
  }

  /** Absolute, not ending in a slash, with no empty name inside. */
  predicate Clean(path: seq<int>) {
    2 <= |path| && path[0] == SLASH && path[|path| - 1] != SLASH && SingleSlashes(path)
  }

  predicate SingleSlashes(path: seq<int>) {
    forall i: nat | 0 < i < |path| && path[i - 1] == SLASH :: path[i] != SLASH
  }

  function PathNames(path: seq<int>): seq<seq<int>>
    requires Clean(path)
  {
    Names(path[1..])
  }

  lemma SearchIsWalk(w: World, path: seq<int>)
    requires Clean(path) && |path| < MAX_FILE_NAME
    ensures SearchInode(w, path) == Walk(w, ROOT, PathNames(path))
  {
    SearchIsFold(w, path[1..], ROOT);
  }

  lemma WalkNothing(w: World, r: int)
    ensures Walk(w, r, []) == r
  {
  }

  /** The names of a path are those of its parent's path and the last one. */
  lemma NamesSplit(w: World, path: seq<int>) returns (names: seq<seq<int>>)
    requires Clean(path) && IsDir(w, ROOT)
    ensures |LastName(path)| > 0 && PathNames(path) == names + [LastName(path)]
    ensures SearchParent(w, path) >= 0 || |path| < MAX_FILE_NAME ==> SearchParent(w, path) == Walk(w, ROOT, names)
  {
    var e, last := LastSlash(path, |path| - 1), LastName(path);
    hide NameLen, Names, Walk;
    if e == 0 {
      names := [];
      assert path[1..] == last;
      NamesOne(last);
      assert Stripped(path[..1]) == [];
      assert [] + [last] == [last];
      WalkNothing(w, ROOT);
    } else {
      hide Search, LastSlash;
      assert path[0] == SLASH && path[1] != SLASH && path[e - 1] != SLASH;
      var q := path[1..e];
      assert Stripped(path[..e + 1]) == q;
      assert path[1..] == q + [SLASH] + last;
      NamesAfterSlash(q, last);
      names := Names(q);
      SearchIsFold(w, q, ROOT);
    }
  }

  /** A path means one step from what its parent means: what search_inode finds agrees with where
      search_parent_directory and extract_last_name_offset would put it.  A path too long for
      search_inode may still have a parent. */
  lemma SearchSplits(w: World, path: seq<int>)
    requires Clean(path) && IsDir(w, ROOT)
    ensures SearchInode(w, path) ==
              if |path| < MAX_FILE_NAME then Step(w, SearchParent(w, path), LastName(path)) else ENAMETOOLONG
    ensures |LastName(path)| > 0
    ensures SearchParent(w, path) >= 0 || |path| < MAX_FILE_NAME ==>
              exists names :: SearchParent(w, path) == Walk(w, ROOT, names) && PathNames(path) == names + [LastName(path)]
  {
    hide LastSlash, SingleSlashes;
    var names := NamesSplit(w, path);
    if |path| < MAX_FILE_NAME {
      SearchIsWalk(w, path);
    }
    WalkSnoc(w, ROOT, names, LastName(path));
    assert PathNames(path) == names + [LastName(path)];
  }

  /** With an empty name before the last one, the entry is put where lookup never gets to. */
  lemma DoubleSlashIsLost(w: World, path: seq<int>)
    requires 3 <= |path| < MAX_FILE_NAME && path[0] == SLASH && path[|path| - 1] != SLASH
    requires var e := LastSlash(path, |path| - 1); e > 0 && path[e - 1] == SLASH
    requires forall d: nat | IsDir(w, d) :: Lookup(w[d].slots, []) == 0
    ensures SearchInode(w, path) < 0
  {
    var e := LastSlash(path, |path| - 1);
    NoEmptyName(w, path[1..], e - 1, ROOT);
  }

  lemma {:induction false} NoEmptyName(w: World, path: seq<int>, e: nat, curr: nat)
    requires e < |path| && path[e] == SLASH && (e == 0 || path[e - 1] == SLASH) && path[|path| - 1] != SLASH
    requires forall d: nat | IsDir(w, d) :: Lookup(w[d].slots, []) == 0
    ensures Search(w, path, curr) < 0
    decreases |path|
  {
    var n := NameLen(path);
    if IsDir(w, curr) {
      if n == 0 {
        assert path[..n] == [];
      } else {
        var next := Lookup(w[curr].slots, path[..n]);
        assert n < e;
        if next > 0 {
          NoEmptyName(w, path[n + 1..], e - n - 1, next);
        }
      }
    }
  }

  // ---------------------------------------------------------------- changing one entry

  /** Does the walk take the entry `name` of `p`? */
  ghost predicate Takes(w: World, r: int, names: seq<seq<int>>, p: nat, name: seq<int>)
    decreases |names|
  {
    |names| > 0 && ((r == p && names[0] == name) || Takes(w, Step(w, r, names[0]), names[1..], p, name))
  }

  /** The names left when it has done so for the first time. */
  ghost function Rest(w: World, r: int, names: seq<seq<int>>, p: nat, name: seq<int>): seq<seq<int>>
    decreases |names|
  {
    if |names| == 0 then []
    else if r == p && names[0] == name then names[1..]
    else Rest(w, Step(w, r, names[0]), names[1..], p, name)
  }

  /** `v` differs from `w` in where entry `name` of `p` leads, and only there `j` is reached. */
  ghost predicate Rewired(w: World, v: World, p: nat, name: seq<int>, j: nat) {
    forall r: nat, n: seq<int> | Live(w, r) && r != j && !(r == p && n == name) ::
      Step(v, r, n) == Step(w, r, n) && (Step(w, r, n) >= 0 ==> Live(w, Step(w, r, n)) && Step(w, r, n) != j)
  }

  lemma {:induction false} WalkRewired(w: World, v: World, p: nat, name: seq<int>, j: nat, r: int, names: seq<seq<int>>)
    requires Rewired(w, v, p, name, j) && (r >= 0 ==> Live(w, r) && r != j)
    ensures !Takes(w, r, names, p, name) ==> Walk(v, r, names) == Walk(w, r, names)
    ensures Takes(w, r, names, p, name) ==>
              var rest := Rest(w, r, names, p, name);
              Walk(v, r, names) == Walk(v, Step(v, p, name), rest) && Walk(w, r, names) == Walk(w, Step(w, p, name), rest)
    ensures !Takes(w, r, names, p, name) && Walk(w, r, names) >= 0 ==> Live(w, Walk(w, r, names)) && Walk(w, r, names) != j
    decreases |names|
  {
    if |names| > 0 && !(r == p && names[0] == name) {
      var next := Step(w, r, names[0]);
      assert Step(v, r, names[0]) == next;
      WalkRewired(w, v, p, name, j, next, names[1..]);
    }
  }

  // ---------------------------------------------------------------- the tree

  /** The root is in use, and no entry names an inode that is not. */
  ghost predicate Closed(w: World) {
    Live(w, ROOT) && IsDir(w, ROOT) &&
    forall d: nat, k: nat | Live(w, d) && IsDir(w, d) && k < |w[d].slots| && w[d].slots[k].ino != 0 :: Live(w, w[d].slots[k].ino)
  }

  predicate PlainName(name: seq<int>) {
    |name| > 0 && name != DOT && name != DOTDOT
  }

  predicate Plain(names: seq<seq<int>>) {
    forall i: nat | i < |names| :: PlainName(names[i])
  }

  /** Slot `k` of directory `d` holds a name other than the dots. */
  predicate Entry(w: World, d: nat, k: nat) {
    Live(w, d) && IsDir(w, d) && 2 <= k < |w[d].slots| && w[d].slots[k].ino != 0
  }

  function Target(w: World, d: nat, k: nat): int {
    if d < |w| && k < |w[d].slots| then w[d].slots[k].ino else 0
  }

  /** Slot 0 of a directory is "." and slot 1 is "..". */
  ghost predicate Dotted(w: World, d: nat) {
    && Live(w, d) && |w[d].slots| >= 2
    && w[d].slots[0] == Slot(d, DOT) && w[d].slots[1].name == DOTDOT
    && Live(w, Target(w, d, 1)) && IsDir(w, Target(w, d, 1))
    && if d == ROOT then Target(w, d, 1) == ROOT else NamedBy(w, Target(w, d, 1), d)
  }

  ghost predicate NamedBy(w: World, p: int, d: nat) {
    p >= 0 && exists k: nat :: Entry(w, p, k) && Target(w, p, k) == d
  }

  ghost predicate Reached(w: World, j: nat) {
    exists names :: Plain(names) && Walk(w, ROOT, names) == j
  }

  ghost predicate DotsRight(w: World) {
    forall d: nat | Live(w, d) && IsDir(w, d) :: Dotted(w, d) && Unique(w[d].slots)
  }

  predicate EntryRight(w: World, d: nat, k: nat) {
    d < |w| && k < |w[d].slots| && PlainName(w[d].slots[k].name) && 2 <= Target(w, d, k) && Live(w, Target(w, d, k))
  }

  ghost predicate EntriesRight(w: World) {
    forall d: nat, k: nat | Entry(w, d, k) :: EntryRight(w, d, k)
  }

  ghost predicate OneEntryEach(w: World) {
    forall d: nat, k: nat, e: nat, l: nat | Entry(w, d, k) && Entry(w, e, l) && Target(w, d, k) == Target(w, e, l) ::
      d == e && k == l
  }

  ghost predicate AllReached(w: World) {
    forall j: nat | 2 <= j && Live(w, j) :: Reached(w, j)
  }

  /** No directory has more entries than the first of its blocks has room for. */
  ghost predicate OneBlockEach(w: World) {
    forall d: nat | Live(w, d) && IsDir(w, d) :: |w[d].slots| <= PER_BLOCK
  }

  /** The directories are a tree: every file in use hangs from exactly one entry and can be
      reached from the root, nothing names an inode that is not in use, the dots are right, and every
      directory fits one block. */
  ghost predicate Tree(w: World) {
    && |w| > 2 && w[0].used && !w[0].dir && Live(w, ROOT) && IsDir(w, ROOT)
    && DotsRight(w) && EntriesRight(w) && OneEntryEach(w) && AllReached(w) && OneBlockEach(w)
  }

  lemma RootIsThere(w: World)
    requires Tree(w)
    ensures |w| > 2 && Live(w, ROOT) && IsDir(w, ROOT)
  {
  }

  lemma EntryFacts(w: World, d: nat, k: nat)
    requires Tree(w) && Entry(w, d, k)
    ensures EntryRight(w, d, k)
  {
  }

  /** Following a plain name is taking an entry. */
  lemma PlainStep(w: World, d: nat, name: seq<int>) returns (k: nat)
    requires Tree(w) && Live(w, d) && IsDir(w, d) && PlainName(name) && Step(w, d, name) != ENOENT
    ensures Entry(w, d, k) && w[d].slots[k].name == name && Target(w, d, k) == Step(w, d, name)
    ensures k == First(w[d].slots, Named(name))
  {
    assert Dotted(w, d);
    hide Tree;
    k := First(w[d].slots, Named(name));
  }

  /** No step leaves the inodes in use. */
  lemma StepStays(w: World, d: nat, name: seq<int>)
    requires Tree(w) && Live(w, d)
    ensures Step(w, d, name) >= 0 ==> Live(w, Step(w, d, name)) && Step(w, d, name) >= ROOT
    ensures Step(w, d, name) < 0 ==> Step(w, d, name) == if IsDir(w, d) then ENOENT else ENOTDIR
    ensures Step(w, d, name) < 0 && IsDir(w, d) ==> Lookup(w[d].slots, name) == 0
  {
    if IsDir(w, d) {
      assert Dotted(w, d);
      var k := First(w[d].slots, Named(name));
      if 2 <= k < |w[d].slots| {
        assert Entry(w, d, k) && EntryRight(w, d, k);
      } else if k == 1 {
        assert w[Target(w, d, 1)].dir;
      }
    }
  }

  lemma {:induction false} WalkStays(w: World, r: int, names: seq<seq<int>>)
    requires Tree(w) && (r >= 0 ==> Live(w, r) && r >= ROOT)
    ensures Walk(w, r, names) >= 0 ==> Live(w, Walk(w, r, names)) && Walk(w, r, names) >= ROOT
    decreases |names|
  {
    hide Tree;
    if |names| > 0 {
      if r >= 0 {
        StepStays(w, r, names[0]);
      }
      WalkStays(w, Step(w, r, names[0]), names[1..]);
    }
  }

  /** Files and paths without dots are one and the same: no two such paths lead to one inode. */
  lemma {:induction false} PlainPathIsUnique(w: World, a: seq<seq<int>>, b: seq<seq<int>>)
    requires Tree(w) && Plain(a) && Plain(b) && Walk(w, ROOT, a) == Walk(w, ROOT, b) >= 0
    ensures a == b
    decreases |a|
  {
    hide Tree;
    if |a| == 0 {
      if |b| > 0 {
        var d, k := LastStep(w, b);
        assert false;
      }
    } else {
      var d, k := LastStep(w, a);
      if |b| == 0 {
        assert false;
      } else {
        var e, l := LastStep(w, b);
        OneEntry(w, d, k, e, l);
        PlainPathIsUnique(w, a[..|a| - 1], b[..|b| - 1]);
        assert a == a[..|a| - 1] + [a[|a| - 1]] && b == b[..|b| - 1] + [b[|b| - 1]];
      }
    }
  }

  lemma OneEntry(w: World, d: nat, k: nat, e: nat, l: nat)
    requires Tree(w) && Entry(w, d, k) && Entry(w, e, l) && Target(w, d, k) == Target(w, e, l)
    ensures d == e && k == l
  {
  }

  lemma LastStep(w: World, a: seq<seq<int>>) returns (d: nat, k: nat)
    requires Tree(w) && Plain(a) && |a| > 0 && Walk(w, ROOT, a) >= 0
    ensures d == Walk(w, ROOT, a[..|a| - 1]) && Entry(w, d, k) && Target(w, d, k) == Walk(w, ROOT, a) >= 2
    ensures w[d].slots[k].name == a[|a| - 1]
  {
    hide Tree, Walk;
    RootIsThere(w);
    var init, last := a[..|a| - 1], a[|a| - 1];
    assert a == init + [last];
    WalkSnoc(w, ROOT, init, last);
    WalkStays(w, ROOT, init);
    d := Walk(w, ROOT, init);
    k := PlainStep(w, d, last);
    EntryFacts(w, d, k);
  }

  /** Every inode in use has its one path. */
  lemma EveryFileHasOnePath(w: World, j: nat)
    requires Tree(w) && ROOT <= j && Live(w, j)
    ensures exists names :: Plain(names) && Walk(w, ROOT, names) == j &&
                            forall other | Plain(other) && Walk(w, ROOT, other) == j :: other == names
  {
    var names: seq<seq<int>> := [];
    if j >= 2 {
      assert Reached(w, j);
      names :| Plain(names) && Walk(w, ROOT, names) == j;
    }
    assert Walk(w, ROOT, names) == j;
    forall other | Plain(other) && Walk(w, ROOT, other) == j
      ensures other == names
    {
      PlainPathIsUnique(w, other, names);
    }
  }

  lemma DotsAreLive(w: World, d: nat)
    requires Tree(w) && Live(w, d) && IsDir(w, d)
    ensures d != 0 && Dotted(w, d) && Unique(w[d].slots) && w[d].slots[0].ino != 0 && w[d].slots[1].ino != 0
  {
  }

  lemma FitsOneBlock(w: World, d: nat)
    requires Tree(w) && Live(w, d) && IsDir(w, d)
    ensures |w[d].slots| <= PER_BLOCK
  {
  }

  lemma TreeIsClosed(w: World)
    requires Tree(w)
    ensures Closed(w)
  {
    hide Tree;
    RootIsThere(w);
    forall d: nat, k: nat | Live(w, d) && IsDir(w, d) && k < |w[d].slots| && w[d].slots[k].ino != 0
      ensures Live(w, w[d].slots[k].ino)
    {
      DotsAreLive(w, d);
      if k >= 2 {
        EntryFacts(w, d, k);
      }
    }
  }

  lemma {:induction false} SearchStaysLive(w: World, path: seq<int>, curr: nat)
    requires Closed(w) && Live(w, curr)
    ensures Search(w, path, curr) >= 0 ==> Live(w, Search(w, path, curr))
    decreases |path|
  {
    if IsDir(w, curr) && |path| > 0 {
      var n := NameLen(path);
      var k := First(w[curr].slots, Named(path[..n]));
      if k < |w[curr].slots| && n < |path| && w[curr].slots[k].ino > 0 {
        SearchStaysLive(w, path[n + 1..], w[curr].slots[k].ino);
      }
    }
  }
}
