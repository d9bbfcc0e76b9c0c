/** The directory layer of fs.c on the disk of `Fs`: directories are bytes in data blocks, and each
    routine is proved to do to them what `Namespace` says of the whole set of inodes. */
module Dirs {
  import opened Common
  import opened Fs
  import opened Dentries
  import opened Paths
  import N = Namespace

  // ---------------------------------------------------------------- what the disk means

  function Bytes(m: Image, i: nat): (s: seq<int>)
    ensures |s| == Size(m, i)
  {
    seq(Size(m, i), k requires 0 <= k => ByteOf(m, i, k))
  }

  function BlockBytes(m: Image, d: int): seq<int> {
    if 0 <= d < |m.data| then m.data[d].bytes else []
  }

  /** The bytes under a dentry_t pointer, `k` entries from the start of a block. */
  function BytesIn(m: Image, d: int, k: nat): (s: seq<int>)
    ensures |s| == ENTRY
  {
    if k * ENTRY + ENTRY <= |BlockBytes(m, d)| then BlockBytes(m, d)[k * ENTRY..k * ENTRY + ENTRY] else Zeros(ENTRY)
  }

  /** How many entries iterate_over_dir gets to: it starts every block with a new one. */
  function Seen(m: Image, i: nat): nat {
    Min(Size(m, i) / ENTRY, PER_BLOCK * Amount(m, i))
  }

  function SeenBytes(m: Image, i: nat, k: nat): (s: seq<int>)
    ensures |s| == ENTRY
  {
    BytesIn(m, Number(m, i, k / PER_BLOCK), k % PER_BLOCK)
  }

  /** A directory as iterate_over_dir sees it. */
  function SlotsOf(m: Image, i: nat): (slots: seq<Slot>)
    ensures |slots| == Seen(m, i)
  {
    seq(Seen(m, i), k requires 0 <= k => SlotOf(SeenBytes(m, i, k)))
  }

  lemma SlotAt(m: Image, i: nat, k: nat)
    requires k < Seen(m, i)
    ensures SlotsOf(m, i)[k] == SlotOf(BytesIn(m, Number(m, i, k / PER_BLOCK), k % PER_BLOCK))
  {
  }

  function NodeOf(m: Image, dirs: seq<bool>, i: nat): Node {
    if i < |m.used| && i < |dirs| && m.used[i] then Node(true, dirs[i], if dirs[i] then SlotsOf(m, i) else [])
    else Node(false, false, [])
  }

  function WorldOf(m: Image, dirs: seq<bool>): (w: World)
    ensures |w| == NINODES
  {
    seq(NINODES, i requires 0 <= i => NodeOf(m, dirs, i))
  }

  /** Whole entries, and no block too many. */
  predicate DirShape(m: Image, i: nat) {
    Size(m, i) % ENTRY == 0 && Tight(m, i) && (Size(m, i) == 0 ==> Amount(m, i) == 0)
  }

  ghost predicate DirsRight(m: Image, dirs: seq<bool>) {
    forall i: nat | i < |m.used| && i < |dirs| && m.used[i] && dirs[i] :: DirShape(m, i)
  }

  /** As long as they fit one block, the entries seen are those written one behind the other. */
  lemma SeenIsWritten(m: Image, i: nat)
    requires Owned(m) && i < NINODES && m.used[i] && DirShape(m, i) && Size(m, i) <= PER_BLOCK * ENTRY
    ensures SlotsOf(m, i) == Entries(Bytes(m, i))
  {
    hide Owned, SlotOf;
    forall k: nat | k < Size(m, i) / ENTRY
      ensures SlotsOf(m, i)[k] == Entries(Bytes(m, i))[k]
    {
      EntryInBlock(m, i, k);
    }
  }

  lemma EntryInBlock(m: Image, i: nat, k: nat)
    requires Owned(m) && i < NINODES && m.used[i] && DirShape(m, i) && k < Size(m, i) / ENTRY && k < PER_BLOCK
    ensures SeenBytes(m, i, k) == Bytes(m, i)[k * ENTRY..k * ENTRY + ENTRY]
  {
    InUseFacts(m, i, 0);
    StillSized(m);
    var d := Number(m, i, 0);
    assert WholeBlock(m.data[d]);
    hide Owned;
    var e := m.data[d].bytes[k * ENTRY..k * ENTRY + ENTRY];
    forall o: nat | o < ENTRY
      ensures e[o] == Bytes(m, i)[k * ENTRY + o]
    {
      BlockOfByte(k * ENTRY + o, 0, k * ENTRY + o);
    }
    assert e == Bytes(m, i)[k * ENTRY..k * ENTRY + ENTRY];
  }

  lemma SameSlots(m: Image, n: Image, i: nat)
    requires Owned(m) && Sized(n) && i < NINODES && SameFile(m, n, i) && m.used[i]
    ensures SlotsOf(n, i) == SlotsOf(m, i) && (DirShape(m, i) ==> DirShape(n, i))
  {
    StillSized(m);
    forall b: nat | b < Amount(m, i)
      ensures Number(n, i, b) == Number(m, i, b) && BlockBytes(n, Number(m, i, b)) == BlockBytes(m, Number(m, i, b))
    {
      InUseFacts(m, i, b);
      var d := Number(m, i, b);
      assert WholeBlock(m.data[d]) && WholeBlock(n.data[d]);
      forall o: nat | o < BLOCK_SIZE
        ensures BlockBytes(n, d)[o] == BlockBytes(m, d)[o]
      {
        assert ByteIn(n, d, o) == ByteIn(m, d, o);
      }
    }
    hide Owned, Sized, SameFile, SlotOf, Number;
    forall k: nat | k < Seen(m, i)
      ensures SeenBytes(n, i, k) == SeenBytes(m, i, k)
    {
      assert k / PER_BLOCK < Amount(m, i);
    }
  }

  /** A change of one file, or of whether there is one. */
  lemma OneNodeDiffers(m: Image, n: Image, dirs: seq<bool>, kinds: seq<bool>, i: nat)
    requires |m.used| == |n.used| == |dirs| == |kinds| == NINODES && Owned(m) && Sized(n) && i < NINODES
    requires forall j: nat | j < NINODES && j != i :: SameFile(m, n, j) && kinds[j] == dirs[j]
    requires DirsRight(m, dirs) && (n.used[i] && kinds[i] ==> DirShape(n, i))
    ensures WorldOf(n, kinds) == WorldOf(m, dirs)[i := NodeOf(n, kinds, i)] && DirsRight(n, kinds)
  {
    hide Owned, Sized;
    forall j: nat | j < NINODES && j != i && m.used[j]
      ensures SlotsOf(n, j) == SlotsOf(m, j) && (dirs[j] ==> DirShape(n, j))
    {
      SameSlots(m, n, j);
    }
    hide SameFile, SlotsOf;
  }

  lemma OneNodeChanges(m: Image, n: Image, dirs: seq<bool>, i: nat)
    requires |m.used| == |dirs| == NINODES && OthersSame(m, n, i) && n.used == m.used && Owned(m) && Owned(n) && i < NINODES
    requires DirsRight(m, dirs) && (m.used[i] && dirs[i] ==> DirShape(n, i))
    ensures WorldOf(n, dirs) == WorldOf(m, dirs)[i := NodeOf(n, dirs, i)] && DirsRight(n, dirs)
  {
    hide Owned;
    StillSized(n);
    OneNodeDiffers(m, n, dirs, dirs, i);
  }

  lemma OtherIsSame(m: Image, n: Image, i: nat, j: nat)
    requires OthersSame(m, n, i) && j < NINODES && j != i
    ensures SameFile(m, n, j)
  {
  }

  /** `w` bytes of `text` have been stored at `at` in block `c` of file `i`. */
  ghost predicate Stored(m0: Image, m: Image, i: nat, c: nat, at: nat, text: seq<int>, w: nat) {
    && Owned(m) && OthersSame(m0, m, i) && m.bitmap == m0.bitmap && m.inodes == m0.inodes && m.used == m0.used
    && i < NINODES && m.used[i] && c < Amount(m0, i) && w <= |text| && at + |text| <= BLOCK_SIZE
    && (forall b: nat | b < Amount(m0, i) :: Number(m, i, b) == Number(m0, i, b))
    && |BlockBytes(m0, Number(m0, i, c))| == BLOCK_SIZE
    && BlockBytes(m, Number(m0, i, c)) == Patch(BlockBytes(m0, Number(m0, i, c)), at, text[..w])
    && (forall b: nat | b < Amount(m0, i) && b != c :: BlockBytes(m, Number(m0, i, b)) == BlockBytes(m0, Number(m0, i, b)))
  }

  lemma BlocksDiffer(m: Image, i: nat, b: nat, c: nat)
    requires Owned(m) && i < NINODES && m.used[i] && b < Amount(m, i) && c < Amount(m, i) && b != c
    ensures Number(m, i, b) != Number(m, i, c)
  {
    assert InUse(m, i, b) && InUse(m, i, c);
  }

  lemma PutInBlock(m: Image, d: nat, off: nat, v: int, x: int)
    requires Sized(m) && IsBlock(d) && off < BLOCK_SIZE
    ensures off < |BlockBytes(m, d)|
    ensures BlockBytes(PutByte(m, d, off, v), x) == if x == d then BlockBytes(m, d)[off := v] else BlockBytes(m, x)
  {
    assert WholeBlock(m.data[d]);
  }

  lemma StoreStep(m0: Image, m: Image, i: nat, c: nat, at: nat, text: seq<int>, w: nat)
    requires Stored(m0, m, i, c, at, text, w) && w < |text|
    ensures Sized(m) && IsBlock(Number(m, i, c)) && Number(m, i, c) == Number(m0, i, c)
    ensures Stored(m0, PutByte(m, Number(m, i, c), at + w, text[w]), i, c, at, text, w + 1)
  {
    hide Owned, OthersSame, Patch, BlockBytes, PutByte, ByteIn, Sized;
    InUseFacts(m, i, c);
    StillSized(m);
    var d := Number(m, i, c);
    PutByteKeepsOwned(m, i, c, at + w, text[w]);
    var n := PutByte(m, d, at + w, text[w]);
    OthersSameTrans(m0, m, n, i);
    PutInBlock(m, d, at + w, text[w], d);
    PatchMore(BlockBytes(m0, d), at, text, w);
    forall b: nat | b < Amount(m0, i) && b != c
      ensures BlockBytes(n, Number(m0, i, b)) == BlockBytes(m0, Number(m0, i, b))
    {
      BlocksDiffer(m, i, b, c);
      PutInBlock(m, d, at + w, text[w], Number(m0, i, b));
    }
  }

  lemma PatchMore(bytes: seq<int>, at: nat, text: seq<int>, w: nat)
    requires at + |text| <= |bytes| && w < |text|
    ensures Patch(bytes, at, text[..w])[at + w := text[w]] == Patch(bytes, at, text[..w + 1])
  {
  }

  lemma SeenAfterStore(m0: Image, m: Image, i: nat, k: nat, text: seq<int>, j: nat)
    requires Stored(m0, m, i, k / PER_BLOCK, k % PER_BLOCK * ENTRY, text, |text|) && k < Seen(m0, i) && j < Seen(m0, i) && |text| <= ENTRY
    ensures SeenBytes(m, i, j) == if j == k then Patch(SeenBytes(m0, i, k), 0, text) else SeenBytes(m0, i, j)
  {
    hide Owned, OthersSame, Number, Patch, Seen;
    var c, at, lo := k / PER_BLOCK, k % PER_BLOCK * ENTRY, j % PER_BLOCK * ENTRY;
    var bytes := BlockBytes(m0, Number(m0, i, c));
    assert text[..|text|] == text;
    assert j / PER_BLOCK < Amount(m0, i) by { SeenIsBacked(m0, i, j); }
    if j == k {
      PatchInside(bytes, at, text, at + ENTRY);
    } else if j / PER_BLOCK == c {
      PatchOutside(bytes, at, text, lo, lo + ENTRY);
    }
  }

  lemma SeenIsBacked(m: Image, i: nat, k: nat)
    requires k < Seen(m, i)
    ensures k / PER_BLOCK < Amount(m, i)
  {
  }

  lemma SlotsAfterStore(m0: Image, m: Image, i: nat, k: nat, text: seq<int>)
    requires Stored(m0, m, i, k / PER_BLOCK, k % PER_BLOCK * ENTRY, text, |text|) && k < Seen(m0, i) && |text| <= ENTRY
    ensures SlotsOf(m, i) == SlotsOf(m0, i)[k := SlotOf(Patch(SeenBytes(m0, i, k), 0, text))]
  {
    assert Seen(m, i) == Seen(m0, i);
    hide Stored, SlotOf, SeenBytes, Patch;
    forall j: nat | j < Seen(m0, i)
      ensures SeenBytes(m, i, j) == if j == k then Patch(SeenBytes(m0, i, k), 0, text) else SeenBytes(m0, i, j)
    {
      SeenAfterStore(m0, m, i, k, text, j);
    }
  }

  lemma StoredAll(m0: Image, m: Image, dirs: seq<bool>, i: nat, k: nat, text: seq<int>)
    requires Stored(m0, m, i, k / PER_BLOCK, k % PER_BLOCK * ENTRY, text, |text|) && Owned(m0) && AllBacked(m0)
    requires DirsRight(m0, dirs) && |m0.used| == |dirs| == NINODES && dirs[i] && k < Seen(m0, i) && |text| <= ENTRY
    ensures WorldOf(m, dirs) == WorldOf(m0, dirs)[i := Node(true, true, SlotsOf(m0, i)[k := SlotOf(Patch(SeenBytes(m0, i, k), 0, text))])]
    ensures DirsRight(m, dirs) && AllBacked(m) && Owned(m)
  {
    hide Owned, OthersSame, AllBacked, SlotOf, Patch, SeenBytes, BlockBytes;
    assert DirShape(m0, i) && DirShape(m, i);
    SlotsAfterStore(m0, m, i, k, text);
    hide SlotsOf;
    OneNodeChanges(m0, m, dirs, i);
    assert Backed(m, i);
    OthersStayBacked(m0, m, i);
  }

  /** The 125th entry: what is seen is in the second block, all but 32 bytes of what was written. */
  lemma SeenTail(n: Image, p: nat, bytes: seq<int>)
    requires Owned(n) && p < NINODES && n.used[p] && DirShape(n, p) && |bytes| == ENTRY && Size(n, p) == (PER_BLOCK + 1) * ENTRY
    requires Bytes(n, p)[PER_BLOCK * ENTRY..] == bytes
    ensures SeenBytes(n, p, PER_BLOCK)[..ENTRY - 32] == bytes[32..]
  {
    InUseFacts(n, p, 1);
    StillSized(n);
    assert WholeBlock(n.data[Number(n, p, 1)]);
    hide Owned;
    var e := SeenBytes(n, p, PER_BLOCK);
    forall o: nat | o < ENTRY - 32
      ensures e[o] == bytes[o + 32]
    {
      BlockOfByte(BLOCK_SIZE + o, 1, o);
      assert bytes[o + 32] == Bytes(n, p)[PER_BLOCK * ENTRY..][o + 32] == ByteOf(n, p, BLOCK_SIZE + o);
    }
  }

  /** The entries before it are where they were. */
  lemma SeenFront(m: Image, n: Image, p: nat, k: nat)
    requires Owned(m) && Owned(n) && p < NINODES && m.used[p] && n.used[p] && DirShape(m, p) && DirShape(n, p)
    requires Size(m, p) == PER_BLOCK * ENTRY && Bytes(m, p) <= Bytes(n, p) && k < PER_BLOCK
    ensures SeenBytes(n, p, k) == SeenBytes(m, p, k)
  {
    hide Owned, Bytes;
    EntryInBlock(m, p, k);
    EntryInBlock(n, p, k);
    assert Bytes(n, p)[..Size(m, p)] == Bytes(m, p);
  }

  lemma SeenAcross(m: Image, n: Image, p: nat, j: nat, name: seq<int>)
    requires Owned(m) && Owned(n) && p < NINODES && m.used[p] && n.used[p] && DirShape(m, p) && DirShape(n, p)
    requires Size(m, p) == PER_BLOCK * ENTRY && j < 0x1_0000 && IsName(name) && Bytes(n, p) == Bytes(m, p) + EntryBytes(j, name)
    ensures N.SeenBehind(SlotsOf(m, p), SlotsOf(n, p), name)
  {
    hide Owned, Bytes, SeenBytes;
    var e := SeenBytes(n, p, PER_BLOCK);
    assert Size(n, p) == (PER_BLOCK + 1) * ENTRY;
    SeenTail(n, p, EntryBytes(j, name));
    StraddlingEntryIsNotFound(e, j, name);
    hide SlotOf, EntryBytes;
    forall k: nat | k < PER_BLOCK
      ensures SeenBytes(n, p, k) == SeenBytes(m, p, k)
    {
      SeenFront(m, n, p, k);
    }
    assert SlotsOf(n, p) == SlotsOf(m, p) + [SlotOf(e)];
  }

  /** What an append to a directory shows. */
  lemma AppendedEntry(m: Image, n: Image, dirs: seq<bool>, p: nat, j: nat, name: seq<int>)
    requires Owned(m) && Owned(n) && OthersSame(m, n, p) && n.used == m.used && p < NINODES && m.used[p]
    requires |m.used| == |dirs| == NINODES && dirs[p] && DirsRight(m, dirs) && DirShape(n, p) && j < 0x1_0000 && IsName(name)
    requires Bytes(n, p) == Bytes(m, p) + EntryBytes(j, name)
    ensures DirsRight(n, dirs) && WorldOf(n, dirs) == WorldOf(m, dirs)[p := Node(true, true, SlotsOf(n, p))]
    ensures Size(m, p) < PER_BLOCK * ENTRY ==> SlotsOf(n, p) == SlotsOf(m, p) + [Slot(j, name)]
    ensures Size(m, p) == PER_BLOCK * ENTRY ==> N.SeenBehind(SlotsOf(m, p), SlotsOf(n, p), name)
  {
    assert DirShape(m, p);
    hide Owned, OthersSame, Bytes, SlotsOf;
    if Size(m, p) < PER_BLOCK * ENTRY {
      SeenIsWritten(m, p);
      SeenIsWritten(n, p);
      EntriesAfterAppend(Bytes(m, p), j, name);
    } else if Size(m, p) == PER_BLOCK * ENTRY {
      SeenAcross(m, n, p, j, name);
    }
    OneNodeChanges(m, n, dirs, p);
  }

  /** ... and one that failed. */
  lemma RefusedEntry(m: Image, n: Image, dirs: seq<bool>, p: nat)
    requires Owned(m) && Owned(n) && OthersSame(m, n, p) && n.used == m.used && p < NINODES && m.used[p]
    requires |m.used| == |dirs| == NINODES && dirs[p] && DirsRight(m, dirs) && DirShape(n, p) && Bytes(n, p) == Bytes(m, p)
    ensures DirsRight(n, dirs) && WorldOf(n, dirs) == WorldOf(m, dirs)[p := Node(true, true, SlotsOf(n, p))]
    ensures Size(m, p) <= PER_BLOCK * ENTRY ==> WorldOf(n, dirs) == WorldOf(m, dirs)
  {
    assert DirShape(m, p);
    hide Owned, OthersSame, Bytes, SlotsOf;
    if Size(m, p) <= PER_BLOCK * ENTRY {
      SeenIsWritten(m, p);
      SeenIsWritten(n, p);
    }
    OneNodeChanges(m, n, dirs, p);
  }

  /** What a user asks of the mounted file system. */
  datatype Request =
    | Create(path: seq<int>, dir: bool)
    | Remove(path: seq<int>)
    | RemoveDir(path: seq<int>)
    | Put(path: seq<int>, text: seq<int>, offset: nat)

  /** What a request is in the namespace, `free` blocks being free. */
  function CallOf(q: Request, free: nat): Option<N.Call> {
    match q
    case Create(path, dir) => Some(N.MakeNode(path, dir, free))
    case Remove(path) => Some(N.RemoveFile(path))
    case RemoveDir(path) => Some(N.RemoveDir(path))
    case Put(_, _, _) => None
  }

  /** A call is made if it keeps to the guard, and has its result; None if it is not made. */
  function Serve(w: World, q: Request, free: nat): (World, Option<int>) {
    match CallOf(q, free)
    case Some(c) =>
      if |w| > 2 && N.Guard(w, c) then
        var (v, r) := N.Apply(w, c);
        (v, Some(r))
      else (w, None)
    case None => (w, None)
  }

  function Served(w: World, requests: seq<Request>, frees: seq<nat>): World
    requires |frees| == |requests|
    decreases |requests|
  {
    var n := |requests| - 1;
    if n < 0 then w else Serve(Served(w, requests[..n], frees[..n]), requests[n], frees[n]).0
  }

  ghost predicate HasOnePath(w: World, j: nat) {
    exists names :: Plain(names) && Walk(w, ROOT, names) == j && forall other | Plain(other) && Walk(w, ROOT, other) == j :: other == names
  }

  lemma ServeKeepsTree(w: World, q: Request, free: nat)
    requires Tree(w)
    ensures Tree(Serve(w, q, free).0) && |w| > 2
  {
    hide Tree, N.Guard, N.Apply;
    RootIsThere(w);
    var c := CallOf(q, free);
    if c.Some? && N.Guard(w, c.value) {
      N.ApplyKeepsTree(w, c.value);
    }
  }

  /** What has been served is a run. */
  lemma {:induction false} ServedIsRun(w: World, requests: seq<Request>, frees: seq<nat>) returns (calls: seq<N.Call>)
    requires |frees| == |requests|
    ensures N.Run(w, calls, Served(w, requests, frees))
    decreases |requests|
  {
    hide N.Apply, N.Roomy, N.NewName, Paths.SearchInode, SearchParent, PlainName, LastName, SingleSlashes;
    var n := |requests| - 1;
    if n < 0 {
      calls := [];
    } else {
      var before := ServedIsRun(w, requests[..n], frees[..n]);
      var u, c := Served(w, requests[..n], frees[..n]), CallOf(requests[n], frees[n]);
      if c.Some? && |u| > 2 && N.Guard(u, c.value) {
        assert N.Run(N.Apply(u, c.value).0, [c.value][1..], N.Apply(u, c.value).0);
        N.RunAppend(w, before, u, [c.value], N.Apply(u, c.value).0);
        calls := before + [c.value];
      } else {
        calls := before;
      }
    }
  }

  lemma ServedKeepsTree(requests: seq<Request>, frees: seq<nat>)
    requires |frees| == |requests|
    ensures var w := Served(N.Boot(NINODES), requests, frees);
            && Tree(w) && Closed(w)
            && (forall j: nat | ROOT <= j && Live(w, j) :: HasOnePath(w, j))
            && (forall j: nat, names | !Live(w, j) :: Walk(w, ROOT, names) != j)
  {
    hide Tree, Closed, N.Boot, Live, Served;
    var w := Served(N.Boot(NINODES), requests, frees);
    var calls := ServedIsRun(N.Boot(NINODES), requests, frees);
    N.EveryRunFromBootKeepsTree(NINODES, calls, w, 0);
    forall j: nat
      ensures (ROOT <= j && Live(w, j) ==> HasOnePath(w, j)) && (!Live(w, j) ==> forall names :: Walk(w, ROOT, names) != j)
    {
      N.EveryRunFromBootKeepsTree(NINODES, calls, w, j);
    }
  }

  class Volume {
    const disk: Disk
    var dirs: seq<bool>     // S_ISDIR(type_mode)
    var links: seq<int>     // link_count

    ghost function World(): (w: World)
      reads this, disk
      ensures |w| == NINODES
    {
      WorldOf(disk.Img(), dirs)
    }

    ghost predicate Valid()
      reads this, disk
    {
      && disk.Valid() && |dirs| == |links| == NINODES && DirsRight(disk.Img(), dirs)
      && disk.used[0] && !dirs[0]
      && forall i: nat | ROOT <= i < NINODES && disk.used[i] :: links[i] == 1
    }

    /** init_superblock, init_bitmaps and init_root_inode. */
    constructor ()
      ensures Valid() && fresh(disk) && World() == N.Boot(NINODES)
    {
      disk := new Disk();
      dirs := seq(NINODES, (i: int) => i == ROOT);
      links := seq(NINODES, (i: int) => if i == ROOT then 1 else 0);
      new;
      ghost var m := disk.Img();
      InitDataBlocksDir(ROOT, ROOT, ROOT);
      assert World() == N.Boot(NINODES);
    }

    /** init_data_blocks_dir: the dots of a new directory, if there is a block for them. */
    method InitDataBlocksDir(i: nat, dot: nat, dotdot: nat)
      requires disk.Valid() && |dirs| == NINODES && i < NINODES && disk.used[i] && DirsRight(disk.Img(), dirs)
      requires dirs[i] && Size(disk.Img(), i) == Amount(disk.Img(), i) == 0 && dot < NINODES && dotdot < NINODES
      modifies disk`bitmap, disk`data, disk`inodes
      ensures disk.Valid() && DirsRight(disk.Img(), dirs) && disk.used == old(disk.used)
      ensures World() == old(World())[i := Node(true, true, if FreeBlocks(old(disk.bitmap)) > 0 then [Slot(dot, DOT), Slot(dotdot, DOTDOT)] else [])]
    {
      ghost var m := disk.Img();
      hide Owned, OthersSame, FreeBlocks;
      var dentries := EntryBytes(dot, DOT) + EntryBytes(dotdot, DOTDOT);
      ghost var w;
      var r;
      r, w := disk.Write(i, dentries, disk.inodes[i].size);
      ghost var n := disk.Img();
      assert Backed(m, i);
      PlacedInPlace(m, n, i, 0, dentries, w);
      if r >= 0 {
        assert Bytes(n, i) == dentries;
        TwoDots(dot, dotdot);
      } else {
        assert Bytes(n, i) == [];
        assert Entries([]) == [];
      }
      SeenIsWritten(n, i);
      OneNodeChanges(m, n, dirs, i);
      assert NodeOf(n, dirs, i) == Node(true, true, Entries(Bytes(n, i)));
      assert r >= 0 <==> FreeBlocks(m.bitmap) > 0;
    }

    lemma TwoDots(dot: nat, dotdot: nat)
      requires dot < NINODES && dotdot < NINODES
      ensures Entries(EntryBytes(dot, DOT) + EntryBytes(dotdot, DOTDOT)) == [Slot(dot, DOT), Slot(dotdot, DOTDOT)]
    {
      var one := EntryBytes(dot, DOT);
      EntriesAfterAppend([], dot, DOT);
      assert [] + one == one;
      EntriesAfterAppend(one, dotdot, DOTDOT);
    }

    // ---------------------------------------------------------------- iteration

    /** The entry under `curr_dentry`, `k` entries from the start of the block. */
    function EntryAt(d: nat, k: nat): (s: Slot)
      requires d < |disk.data| && |disk.data[d].bytes| == BLOCK_SIZE && k < PER_BLOCK
      reads disk
      ensures s == SlotOf(BytesIn(disk.Img(), d, k))
    {
      SlotOf(disk.data[d].bytes[k * ENTRY..k * ENTRY + ENTRY])
    }

    lemma ShapeOf(i: nat)
      requires Valid() && i < NINODES && disk.used[i] && dirs[i]
      ensures DirShape(disk.Img(), i) && World()[i].slots == SlotsOf(disk.Img(), i)
      ensures Owned(disk.Img()) && |disk.inodes| == NINODES
    {
    }

    /** What iteration knows once it has gone through the entries before `k`. */
    ghost predicate NoneBefore(slots: seq<Slot>, q: Query, k: nat) {
      k <= |slots| && forall j: nat | j < k :: Hit(q, slots[j]) == 0
    }

    lemma NoneMore(slots: seq<Slot>, q: Query, k: nat)
      requires NoneBefore(slots, q, k) && k < |slots| && Hit(q, slots[k]) == 0
      ensures NoneBefore(slots, q, k + 1)
    {
    }

    /** iterate_over_one_block_dir, for block `block`. */
    method IterateOverOneBlock(i: nat, q: Query, d: nat, block: nat, from: nat) returns (r: int, iter: nat, k: nat)
      requires Valid() && i < NINODES && disk.used[i] && dirs[i] && block < Amount(disk.Img(), i) && d == Number(disk.Img(), i, block)
      requires from == block * PER_BLOCK * ENTRY <= Size(disk.Img(), i) && NoneBefore(World()[i].slots, q, block * PER_BLOCK)
      ensures var slots := World()[i].slots;
              && NoneBefore(slots, q, k) && iter == k * ENTRY
              && (if r != 0 then k < |slots| && r == Hit(q, slots[k])
                  else iter <= Size(disk.Img(), i) && (iter == Size(disk.Img(), i) || k == (block + 1) * PER_BLOCK))
    {
      ghost var m, slots := disk.Img(), World()[i].slots;
      ShapeOf(i);
      InUseFacts(m, i, block);
      StillSized(m);
      WholeBlockOf(m, d);
      assert slots == SlotsOf(m, i);
      hide Owned, Disk.Valid, Valid, WorldOf, Number, SlotOf, Sized, Hit, BytesIn, SlotsOf, NoneBefore;
      var curr := 0;
      iter, k := from, block * PER_BLOCK;
      while disk.inodes[i].size > iter && curr <= PER_BLOCK - 1
        invariant curr <= PER_BLOCK && k == block * PER_BLOCK + curr && iter == k * ENTRY <= Size(m, i)
        invariant NoneBefore(slots, q, k)
      {
        assert k / PER_BLOCK == block && k % PER_BLOCK == curr;
        assert k < Seen(m, i);
        SlotAt(m, i, k);
        r := Hit(q, EntryAt(d, curr));
        if r != 0 {
          return;
        }
        NoneMore(slots, q, k);
        iter := iter + ENTRY;
        curr, k := curr + 1, k + 1;
      }
      r := 0;
    }

    /** iterate_over_dir: the callback's answer, and which entry it was for. */
    method IterateOverDir(i: nat, q: Query) returns (r: int, k: nat)
      requires Valid() && i < NINODES && disk.used[i]
      ensures !dirs[i] ==> r == ENOTDIR
      ensures dirs[i] ==> var slots := World()[i].slots;
                          k == First(slots, q) && r == if k < |slots| then Hit(q, slots[k]) else 0
    {
      k := 0;
      if !dirs[i] {
        return ENOTDIR, k;
      }
      ghost var m, slots := disk.Img(), World()[i].slots;
      ShapeOf(i);
      var block, iter := 0, 0;
      var d := disk.GetInodeBlock(i, block);
      hide Owned, Disk.Valid, DirsRight, WorldOf, SlotsOf;
      while d >= 0 && iter < disk.inodes[i].size
        invariant d == disk.GetInodeBlock(i, block) && block <= Amount(m, i)
        invariant iter == k * ENTRY <= Size(m, i) && NoneBefore(slots, q, k)
        invariant iter == Size(m, i) || k == block * PER_BLOCK
        decreases Amount(m, i) - block
      {
        r, iter, k := IterateOverOneBlock(i, q, d, block, iter);
        if r != 0 {
          FirstIs(slots, q, k);
          return;
        }
        block := block + 1;
        d := disk.GetInodeBlock(i, block);
      }
      r := 0;
      FirstIs(slots, q, k);
    }

    lemma FirstHits(slots: seq<Slot>, q: Query)
      ensures First(slots, q) < |slots| ==> Hit(q, slots[First(slots, q)]) != 0
    {
    }

    /** dir_is_empty. */
    method DirIsEmpty(i: nat) returns (b: bool)
      requires Valid() && i < NINODES && disk.used[i] && dirs[i]
      ensures b == N.DirIsEmpty(World()[i].slots)
    {
      ShapeOf(i);
      if disk.inodes[i].size == 2 * ENTRY {
        return true;
      }
      var r, k := IterateOverDir(i, AnyFile);
      b := r == 0;
      FirstHits(World()[i].slots, AnyFile);
    }

    // ---------------------------------------------------------------- lookup

    /** get_first_file_name. */
    method GetFirstFileName(path: seq<int>) returns (buffer: seq<int>)
      ensures buffer == path[..NameLen(path)]
    {
      var i := 0;
      buffer := [];
      while i < |path| && path[i] != SLASH
        invariant i <= |path| && buffer == path[..i]
        invariant forall k: nat | k < i :: path[k] != SLASH
      {
        buffer := buffer + [path[i]];
        i := i + 1;
      }
      NameLenIs(path, i);
    }

    /** search_inode_rec. */
    method SearchInodeRec(path: seq<int>, curr: nat) returns (r: int)
      requires Valid() && Closed(World()) && Live(World(), curr)
      ensures r == Search(World(), path, curr)
      decreases |path|
    {
      hide Disk.Valid, DirsRight;
      if !dirs[curr] {
        return ENOTDIR;
      }
      if |path| == 0 {
        return curr;
      }
      var name := GetFirstFileName(path);
      var response, k := IterateOverDir(curr, Query.Named(name));
      if response < 0 {
        return response;
      } else if response == 0 {
        return ENOENT;
      }
      if |name| == |path| {
        return response;
      }
      r := SearchInodeRec(path[|name| + 1..], response);
    }

    /** search_inode. */
    method SearchInode(path: seq<int>) returns (r: int)
      requires Valid() && Closed(World())
      ensures r == Paths.SearchInode(World(), path)
      ensures r >= 0 ==> Live(World(), r)
    {
      if |path| == 0 {
        return EINVAL;
      }
      if |path| >= MAX_FILE_NAME {
        return ENAMETOOLONG;
      }
      var copy := path;
      if |path| > 1 && path[|path| - 1] == SLASH {
        copy := copy[..|path| - 1];
      }
      r := SearchInodeRec(copy[1..], ROOT);
      SearchStaysLive(World(), copy[1..], ROOT);
    }

    /** search_parent_directory. */
    method SearchParentDirectory(path: seq<int>) returns (r: int)
      requires Valid() && Closed(World()) && |path| > 0 && path[0] == SLASH
      ensures r == SearchParent(World(), path)
      ensures r >= 0 ==> Live(World(), r)
    {
      hide Valid, Closed, Paths.SearchInode;
      if |path| - 1 >= MAX_PATH_LEN {
        return ENAMETOOLONG;
      }
      var i := |path| - 1;
      if path[i] == SLASH && |path| == 1 {
        r := SearchInode(path);
        return;
      }
      if path[i] == SLASH {
        i := i - 1;
      }
      ghost var start := i;
      while path[i] != SLASH
        invariant 0 <= i <= start && LastSlash(path, i) == LastSlash(path, start)
        decreases i
      {
        i := i - 1;
      }
      assert path[..i + 1] == ParentPath(path);
      r := SearchInode(path[..i + 1]);
    }

    /** extract_last_name_offset. */
    method ExtractLastNameOffset(path: seq<int>) returns (n: nat)
      requires |path| > 0 && path[0] == SLASH
      ensures n <= |path| && path[n..] == LastName(path)
    {
      var i := |path| - 1;
      while i > 0 && path[i] != SLASH
        invariant 0 <= i < |path| && LastSlash(path, i) == LastSlash(path, |path| - 1)
      {
        i := i - 1;
      }
      n := i + 1;
    }

    // ---------------------------------------------------------------- changing a directory

    /** Bytes stored through a pointer to entry `k`. */
    method StoreInEntry(i: nat, k: nat, text: seq<int>)
      requires Valid() && i < NINODES && disk.used[i] && dirs[i] && k < |World()[i].slots| && |text| <= ENTRY
      modifies disk`data
      ensures Valid() && OthersSame(old(disk.Img()), disk.Img(), i)
      ensures World() == old(World())[i := Node(true, true,
                old(World())[i].slots[k := SlotOf(Patch(SeenBytes(old(disk.Img()), i, k), 0, text))])]
    {
      hide Owned, OthersSame, AllBacked, DirsRight, Valid, Disk.Valid, WorldOf, Sized, Patch, BytesIn, BlockBytes, Seen, DirShape, SlotsOf;
      ghost var m0 := disk.Img();
      EntryIsThere(i, k);
      var c := k / PER_BLOCK;
      var d := disk.GetInodeBlock(i, c);
      StoreNothing(m0, i, c, k % PER_BLOCK * ENTRY, text);
      hide Stored, SeenBytes, Number;
      var w := 0;
      while w < |text|
        invariant w <= |text| && Stored(m0, disk.Img(), i, c, k % PER_BLOCK * ENTRY, text, w)
      {
        ghost var m := disk.Img();
        StoreStep(m0, m, i, c, k % PER_BLOCK * ENTRY, text, w);
        PutByteAt(d, k % PER_BLOCK * ENTRY + w, text[w]);
        w := w + 1;
      }
      StoredAll(m0, disk.Img(), dirs, i, k, text);
      StillValid(m0);
    }

    lemma EntryIsThere(i: nat, k: nat)
      requires Valid() && i < NINODES && disk.used[i] && dirs[i] && k < |World()[i].slots|
      ensures var m := disk.Img();
              && Owned(m) && AllBacked(m) && Sized(m) && DirsRight(m, dirs) && disk.Valid() && |m.used| == |dirs| == |links| == NINODES
              && k < Seen(m, i) && k / PER_BLOCK < Amount(m, i) && World() == WorldOf(m, dirs) && WorldOf(m, dirs)[i].slots == SlotsOf(m, i)
    {
      ShapeOf(i);
      SeenIsBacked(disk.Img(), i, k);
    }

    /** What `Valid` asks besides the blocks and the bytes of directories has not changed. */
    twostate lemma StillValid(m: Image)
      requires old(Valid()) && m == old(disk.Img()) && dirs == old(dirs) && links == old(links) && disk.used == old(disk.used)
      requires Owned(disk.Img()) && AllBacked(disk.Img()) && DirsRight(disk.Img(), dirs)
      ensures Valid()
    {
    }

    /** One byte through the pointer. */
    method PutByteAt(d: nat, off: nat, v: int)
      requires Sized(disk.Img()) && IsBlock(d) && off < BLOCK_SIZE
      modifies disk`data
      ensures disk.Img() == PutByte(old(disk.Img()), d, off, v)
    {
      WholeBlockOf(disk.Img(), d);
      disk.data := disk.data[d := WithByte(disk.data[d], off, v)];
    }

    lemma WholeBlockOf(m: Image, d: nat)
      requires Sized(m) && IsBlock(d)
      ensures d < |m.data| && WholeBlock(m.data[d])
    {
    }

    lemma StoreNothing(m: Image, i: nat, c: nat, at: nat, text: seq<int>)
      requires Owned(m) && i < NINODES && m.used[i] && c < Amount(m, i) && at + |text| <= BLOCK_SIZE
      ensures Stored(m, m, i, c, at, text, 0)
    {
      StillSized(m);
      NothingChanges(m, i);
      InUseFacts(m, i, c);
      assert WholeBlock(m.data[Number(m, i, c)]);
      hide Owned, OthersSame;
    }

    /** The part of add_inode_to_directory that names the inode: in a free entry, or behind the
        last.  In a file it does neither. */
    method AddEntry(p: nat, j: nat, name: seq<int>) returns (r: int)
      requires Valid() && p < NINODES && disk.used[p] && IsName(name) && 0 < j < NINODES
      modifies disk`bitmap, disk`data, disk`inodes
      ensures Valid() && OthersSame(old(disk.Img()), disk.Img(), p) && disk.used == old(disk.used)
      ensures !dirs[p] || HasSlot(old(World())[p].slots) ==>
                var w := old(World());
                var need := if dirs[p] && |w[p].slots| == 0 then 1 else 0;
                if FreeBlocks(old(disk.bitmap)) < need then r == ENOSPC && World() == w
                else r == 0 && World() == (if dirs[p] then N.WithSlots(w, p, Insert(w[p].slots, j, name)) else w)
                     && FreeBlocks(disk.bitmap) == FreeBlocks(old(disk.bitmap)) - need
      ensures dirs[p] && !HasSlot(old(World())[p].slots) ==> (r == 0 || r == ENOSPC || r == ENOMEM) && Full(old(World()), World(), p, name, FreeBlocks(old(disk.bitmap)), FreeBlocks(disk.bitmap), r)
    {
      ghost var w := World();
      hide Owned, OthersSame, AllBacked, DirsRight, FreeBlocks;
      var inserted, k := IterateOverDir(p, Free);
      NothingHappens(p);
      if inserted == 0 {
        FirstHits(w[p].slots, Free);
        r := AppendEntry(p, j, name);
        if r < 0 {
          return;
        }
      } else if inserted > 0 {
        FirstHits(w[p].slots, Free);
        InsertRoundTrip(SeenBytes(disk.Img(), p, k), j, name);
        StoreInEntry(p, k, InsertBytes(j, name));
      }
      r := 0;
    }

    lemma NothingHappens(p: nat)
      requires Valid()
      ensures OthersSame(disk.Img(), disk.Img(), p)
    {
      NothingChanges(disk.Img(), p);
    }

    /** `v` is `w` after an entry was to be written behind a block full of entries of directory `p`,
        with `free` blocks free before and `after` after it. */
    ghost predicate Full(w: World, v: World, p: nat, name: seq<int>, free: nat, after: nat, r: int) {
      && p < |w| == |v| && v == w[p := v[p]] && v[p].used && v[p].dir
      && (|w[p].slots| == PER_BLOCK ==>
            if free == 0 then r == ENOSPC && v == w else r == 0 && N.SeenBehind(w[p].slots, v[p].slots, name) && after == free - 1)
    }

    /** What `Write` says of writing a whole entry at the end of the directory. */
    ghost predicate EntryWritten(m: Image, n: Image, p: nat, j: nat, name: seq<int>, r: int, w: nat)
      requires j < 0x1_0000 && IsName(name)
    {
      var before, after := Amount(m, p), Final(Amount(m, p), Size(m, p), ENTRY);
      && Placed(m, n, p, Size(m, p), EntryBytes(j, name), w)
      && (if r >= 0 then w == ENTRY && Size(n, p) == Size(m, p) + ENTRY && Amount(n, p) == after && FreeBlocks(n.bitmap) == FreeBlocks(m.bitmap) - Needed(before, after)
          else Size(n, p) == Size(m, p))
      && (if r == ENOMEM then n == m && (Size(m, p) + ENTRY) / BLOCK_SIZE >= MAX_BLOCKS
          else (r >= 0 <==> after <= MAX_BLOCKS && FreeBlocks(m.bitmap) >= Needed(before, after))
               && (r < 0 ==> r == ENOSPC && Amount(n, p) < after))
    }

    /** ... does to its bytes. */
    lemma AppendBytes(m: Image, n: Image, ds: seq<bool>, p: nat, j: nat, name: seq<int>, r: int, w: nat)
      requires Owned(m) && Owned(n) && OthersSame(m, n, p) && n.used == m.used && p < NINODES && m.used[p] && AllBacked(n)
      requires |m.used| == |ds| == NINODES && ds[p] && DirsRight(m, ds) && j < 0x1_0000 && IsName(name)
      requires EntryWritten(m, n, p, j, name, r, w)
      ensures DirShape(m, p) && DirShape(n, p) && Bytes(n, p) == if r >= 0 then Bytes(m, p) + EntryBytes(j, name) else Bytes(m, p)
    {
      hide Owned, OthersSame, AllBacked, FreeBlocks, EntryBytes, Placed;
      assert DirShape(m, p);
      hide DirsRight;
      EntryFits(m, p);
      FileStaysBacked(n, p);
      StillSized(n);
      PlacedInPlace(m, n, p, Size(m, p), EntryBytes(j, name), w);
      hide Final, Needed, Seen;
    }

    /** ... costs, and when there is not enough. */
    lemma AppendCosts(m: Image, n: Image, p: nat, j: nat, name: seq<int>, r: int, w: nat)
      requires DirShape(m, p) && j < 0x1_0000 && IsName(name) && EntryWritten(m, n, p, j, name, r, w)
      ensures Seen(m, p) <= PER_BLOCK ==>
                var need := if Seen(m, p) == 0 || Seen(m, p) == PER_BLOCK then 1 else 0;
                && (r >= 0 <==> FreeBlocks(m.bitmap) >= need) && (r < 0 ==> r == ENOSPC)
                && (r >= 0 ==> FreeBlocks(n.bitmap) == FreeBlocks(m.bitmap) - need)
                && (Seen(m, p) < PER_BLOCK <==> Size(m, p) < PER_BLOCK * ENTRY) && (Seen(m, p) == PER_BLOCK <==> Size(m, p) == PER_BLOCK * ENTRY)
    {
      hide FreeBlocks, EntryBytes, Placed, Needed, Final, Seen;
      EntryFits(m, p);
      if Size(m, p) < PER_BLOCK * ENTRY {
        FinalOfOne(m, p);
      }
    }

    lemma FinalOfOne(m: Image, p: nat)
      requires DirShape(m, p) && Size(m, p) < PER_BLOCK * ENTRY
      ensures Final(Amount(m, p), Size(m, p), ENTRY) == 1
    {
    }

    /** ... is what it means for the directory. */
    lemma AppendOutcome(m: Image, n: Image, ds: seq<bool>, p: nat, j: nat, name: seq<int>, r: int, w: nat)
      requires Owned(m) && Owned(n) && OthersSame(m, n, p) && n.used == m.used && p < NINODES && m.used[p] && AllBacked(n)
      requires |m.used| == |ds| == NINODES && ds[p] && DirsRight(m, ds) && j < 0x1_0000 && IsName(name)
      requires EntryWritten(m, n, p, j, name, r, w)
      ensures DirsRight(n, ds) && WorldOf(n, ds) == WorldOf(m, ds)[p := Node(true, true, SlotsOf(n, p))]
      ensures Seen(m, p) < PER_BLOCK ==>
                var need := if Seen(m, p) == 0 then 1 else 0;
                if FreeBlocks(m.bitmap) < need then r == ENOSPC && WorldOf(n, ds) == WorldOf(m, ds)
                else r >= 0 && SlotsOf(n, p) == SlotsOf(m, p) + [Slot(j, name)] && FreeBlocks(n.bitmap) == FreeBlocks(m.bitmap) - need
      ensures Seen(m, p) == PER_BLOCK ==>
                if FreeBlocks(m.bitmap) == 0 then r == ENOSPC && WorldOf(n, ds) == WorldOf(m, ds)
                else r >= 0 && N.SeenBehind(SlotsOf(m, p), SlotsOf(n, p), name) && FreeBlocks(n.bitmap) == FreeBlocks(m.bitmap) - 1
    {
      hide Owned, OthersSame, AllBacked, FreeBlocks, DirsRight, WorldOf, SlotsOf, EntryBytes, N.SeenBehind, EntryWritten, Seen, DirShape;
      AppendBytes(m, n, ds, p, j, name, r, w);
      AppendCosts(m, n, p, j, name, r, w);
      if r >= 0 {
        AppendedEntry(m, n, ds, p, j, name);
      } else {
        RefusedEntry(m, n, ds, p);
      }
    }

    /** fiuba_write of a whole entry at the end of the directory. */
    method AppendEntry(p: nat, j: nat, name: seq<int>) returns (r: int)
      requires Valid() && p < NINODES && disk.used[p] && dirs[p] && IsName(name) && 0 < j < NINODES
      modifies disk`bitmap, disk`data, disk`inodes
      ensures Valid() && OthersSame(old(disk.Img()), disk.Img(), p) && disk.used == old(disk.used)
      ensures |old(World())[p].slots| < PER_BLOCK ==>
                var need := if |old(World())[p].slots| == 0 then 1 else 0;
                if FreeBlocks(old(disk.bitmap)) < need then r == ENOSPC && World() == old(World())
                else r >= 0 && World() == N.WithSlots(old(World()), p, old(World())[p].slots + [Slot(j, name)])
                     && FreeBlocks(disk.bitmap) == FreeBlocks(old(disk.bitmap)) - need
      ensures |old(World())[p].slots| >= PER_BLOCK ==>
                && (r >= 0 || r == ENOSPC || r == ENOMEM)
                && Full(old(World()), World(), p, name, FreeBlocks(old(disk.bitmap)), FreeBlocks(disk.bitmap), if r >= 0 then 0 else r)
    {
      ghost var m := disk.Img();
      ShapeOf(p);
      assert World()[p] == Node(true, true, SlotsOf(m, p));
      hide Owned, OthersSame, AllBacked, FreeBlocks, DirsRight, WorldOf, SlotsOf, Placed, EntryBytes, Final, Needed, Seen, N.SeenBehind;
      ghost var w;
      r, w := disk.Write(p, EntryBytes(j, name), disk.inodes[p].size);
      assert EntryWritten(m, disk.Img(), p, j, name, r, w);
      hide EntryWritten;
      AppendOutcome(m, disk.Img(), dirs, p, j, name, r, w);
    }

    /** One more entry takes a block exactly when there is none, and otherwise at most one in a while. */
    lemma EntryFits(m: Image, p: nat)
      requires DirShape(m, p)
      ensures InLastBlock(m, p, Size(m, p)) && Seen(m, p) <= Size(m, p) / ENTRY
      ensures Seen(m, p) < PER_BLOCK <==> Size(m, p) < PER_BLOCK * ENTRY
      ensures Size(m, p) < PER_BLOCK * ENTRY ==> Seen(m, p) == Size(m, p) / ENTRY
      ensures (Size(m, p) + ENTRY) / BLOCK_SIZE <= Size(m, p) / BLOCK_SIZE + 1
      ensures Seen(m, p) == PER_BLOCK ==> Size(m, p) == PER_BLOCK * ENTRY && Amount(m, p) == 1 && Final(1, Size(m, p), ENTRY) == 2 && Needed(1, 2) == 1
      ensures Size(m, p) < PER_BLOCK * ENTRY ==>
                (Size(m, p) + ENTRY) / BLOCK_SIZE == 0 && Needed(Amount(m, p), 1) == if Size(m, p) == 0 then 1 else 0
    {
    }

    lemma FileStaysBacked(m: Image, i: nat)
      requires AllBacked(m) && i < |m.used| && m.used[i]
      ensures Backed(m, i)
    {
    }

    /** What add_inode_to_directory does to the inodes, `free` blocks being free before. */
    ghost predicate Adds(w: World, v: World, p: nat, j: nat, name: seq<int>, free: nat, r: int)
      requires p < |w| && j < |w|
    {
      if !w[p].dir || HasSlot(w[p].slots) then
        var need := if w[p].dir && |w[p].slots| == 0 then 1 else 0;
        if free < need then r == ENOSPC && v == w
        else r == 0 && v == (if w[p].dir then N.WithSlots(w, p, Insert(w[p].slots, j, name)) else w)[j := N.Fresh(j, p, w[j].dir, free > need)]
      else FullAdd(w, v, p, j, w[j].dir, name, free, r)
    }

    /** add_inode_to_directory. */
    method AddInodeToDirectory(p: nat, j: nat, name: seq<int>) returns (r: int)
      requires Valid() && p < NINODES && disk.used[p] && 0 < j < NINODES && disk.used[j] && p != j && IsName(name)
      requires Size(disk.Img(), j) == Amount(disk.Img(), j) == 0
      modifies disk`bitmap, disk`data, disk`inodes
      ensures Valid() && disk.used == old(disk.used) && r <= 0
      ensures r < 0 ==> Size(disk.Img(), j) == Amount(disk.Img(), j) == 0
      ensures Adds(old(World()), World(), p, j, name, FreeBlocks(old(disk.bitmap)), r)
    {
      ghost var w, m := World(), disk.Img();
      hide FreeBlocks, Owned, OthersSame, AllBacked, DirsRight, HasSlot, First, Insert, WorldOf, N.SeenBehind, Adds, Full;
      ThisNode(p);
      ThisNode(j);
      r := AddEntry(p, j, name);
      OtherIsSame(m, disk.Img(), p, j);
      ghost var v, free := World(), FreeBlocks(disk.bitmap);
      if r >= 0 {
        ThisNode(j);
        if dirs[j] {
          InitDataBlocksDir(j, j, p);
        }
      }
      AddedAndDotted(w, v, World(), p, j, name, FreeBlocks(m.bitmap), free, r);
    }

    lemma ThisNode(j: nat)
      requires Valid() && j < NINODES && disk.used[j]
      ensures World()[j] == Node(true, dirs[j], if dirs[j] then SlotsOf(disk.Img(), j) else [])
    {
    }

    lemma AddedAndDotted(w: World, v: World, u: World, p: nat, j: nat, name: seq<int>, before: nat, after: nat, r: int)
      requires p < |w| == |v| == |u| && j < |w| && p != j && w[p].used && w[j].used && v[j] == Node(true, w[j].dir, []) && r <= 0
      requires !w[p].dir || HasSlot(w[p].slots) ==>
                 var need := if w[p].dir && |w[p].slots| == 0 then 1 else 0;
                 if before < need then r == ENOSPC && v == w
                 else r == 0 && v == (if w[p].dir then N.WithSlots(w, p, Insert(w[p].slots, j, name)) else w) && after == before - need
      requires w[p].dir && !HasSlot(w[p].slots) ==> Full(w, v, p, name, before, after, r)
      requires u == if r < 0 then v else v[j := N.Fresh(j, p, w[j].dir, after > 0)]
      ensures Adds(w, u, p, j, name, before, r)
    {
      hide HasSlot, Insert, N.SeenBehind;
    }

    /** The same with the new inode `j` beside it. */
    ghost predicate FullAdd(w: World, v: World, p: nat, j: nat, dir: bool, name: seq<int>, free: nat, r: int) {
      && p < |w| == |v| && j < |w| && v[p].used && v[p].dir && r <= 0
      && (if r == 0 then exists room :: v == w[p := v[p]][j := N.Fresh(j, p, dir, room)] else v == w[p := v[p]])
      && (|w[p].slots| == PER_BLOCK ==>
            if free == 0 then r == ENOSPC && v == w
            else r == 0 && v == w[p := v[p]][j := N.Fresh(j, p, dir, free > 1)] && N.SeenBehind(w[p].slots, v[p].slots, name))
    }

    // ---------------------------------------------------------------- creating and removing

    /** search_free_inode, with the type and the link count of init_inode. */
    method TakeInode(dir: bool) returns (j: int)
      requires Valid()
      modifies this`dirs, this`links, disk`inodes, disk`used
      ensures Valid()
      ensures j < 0 ==> j == ENOMEM && World() == old(World()) && N.FreeInode(World()) == NINODES
      ensures j >= 0 ==> 2 <= j < NINODES && j == N.FreeInode(old(World())) && !old(disk.used)[j] && disk.used == old(disk.used)[j := true] && disk.used[j]
                         && dirs[j] == dir && Size(disk.Img(), j) == Amount(disk.Img(), j) == 0
                         && World() == old(World())[j := Node(true, dir, [])] && old(World())[j] == Node(false, false, [])
    {
      ghost var w, m := World(), disk.Img();
      hide Owned, DirsRight, SameFile, AllBacked;
      j := disk.NewInode();
      if j < 0 {
        N.FreeInodeIs(w, NINODES);
        return;
      }
      N.FreeInodeIs(w, j);
      ghost var was := dirs;
      dirs := dirs[j := dir];
      links := links[j := 1];
      StillSized(disk.Img());
      OneNodeDiffers(m, disk.Img(), was, dirs, j);
    }

    /** INODE_BITMAP[j] = false. */
    method ClearInodeBit(j: nat)
      requires Valid() && 2 <= j < NINODES && disk.used[j]
      modifies disk`used
      ensures Valid() && World() == old(World())[j := Node(false, false, [])]
    {
      ghost var m := disk.Img();
      hide DirsRight;
      NothingHappens(j);
      disk.ForgetFile(m, m, j);
      disk.used := disk.used[j := false];
      StillSized(disk.Img());
      OneNodeDiffers(m, disk.Img(), dirs, dirs, j);
    }

    /** A taken inode that got its name, or none, makes the call of `Namespace`. */
    lemma TakenAndAdded(w: World, path: seq<int>, dir: bool, free: nat, p: nat, j: nat, u: World, r: int)
      requires |path| > 0 && path[0] == SLASH && |w| > 2 && p == SearchParent(w, path) && Live(w, p)
      requires j == N.FreeInode(w) < |w| && w[j] == Node(false, false, [])
      requires p != j && Adds(w[j := Node(true, dir, [])], u, p, j, LastName(path), free, r) && N.Roomy(w, path)
      ensures N.NewInode(w, path, dir, free) == (if r < 0 && j < |u| then u[j := Node(false, false, [])] else u, r)
    {
      hide SearchParent, LastName, Insert;
      var v, slots := w[j := Node(true, dir, [])], Insert(w[p].slots, j, LastName(path));
      assert v[j := Node(false, false, [])] == w;
      assert p != j && v[p] == w[p];
      var need := if w[p].dir && |w[p].slots| == 0 then 1 else 0;
      var made := N.Fresh(j, p, dir, free > need);
      assert N.WithSlots(v, p, slots)[j := made] == N.WithSlots(w, p, slots)[j := made];
      assert v[j := made] == w[j := made];
    }

    /** new_inode. */
    method NewInode(path: seq<int>, dir: bool) returns (r: int)
      requires Valid() && Closed(World()) && |path| > 0 && path[0] == SLASH && IsName(LastName(path))
      modifies this`dirs, this`links, disk`bitmap, disk`data, disk`inodes, disk`used
      ensures Valid() && r <= 0
      ensures N.Roomy(old(World()), path) ==> (World(), r) == N.NewInode(old(World()), path, dir, FreeBlocks(old(disk.bitmap)))
      ensures !N.Roomy(old(World()), path) ==> N.Crowded(old(World()), path, dir, FreeBlocks(old(disk.bitmap)), World(), r)
    {
      ghost var w, free := World(), FreeBlocks(disk.bitmap);
      NewInodeRefused(w, path, dir, free);
      hide FreeBlocks, Owned, AllBacked, DirsRight, HasSlot, First, Insert, Closed, N.NewInode, Valid, Disk.Valid, LastName, N.Crowded, Adds, N.Roomy, N.Fresh;
      if |path| > MAX_PATH_LEN {
        return ENAMETOOLONG;
      }
      var p := SearchParentDirectory(path);
      if p < 0 {
        return p;
      }
      var j := TakeInode(dir);
      if j < 0 {
        return j;
      }
      var offset := ExtractLastNameOffset(path);
      UsedIsLive(p);
      assert World() == w[j := Node(true, dir, [])];
      r := AddInodeToDirectory(p, j, path[offset..]);
      if N.Roomy(w, path) {
        TakenAndAdded(w, path, dir, free, p, j, World(), r);
      } else {
        TakenAndCrowded(w, World(), path, dir, free, p, j, r);
      }
      if r < 0 {
        ClearInodeBit(j);
      }
    }

    lemma TakenAndCrowded(w: World, u: World, path: seq<int>, dir: bool, free: nat, p: nat, j: nat, r: int)
      requires |path| > 0 && path[0] == SLASH && |w| > 2 && p == SearchParent(w, path) && Live(w, p) && IsDir(w, p)
      requires j == N.FreeInode(w) < |w| && p != j && w[j] == Node(false, false, [])
      requires Adds(w[j := Node(true, dir, [])], u, p, j, LastName(path), free, r) && !N.Roomy(w, path)
      ensures |u| == |w| && N.Crowded(w, path, dir, free, if r < 0 then u[j := Node(false, false, [])] else u, r)
    {
      hide SearchParent, LastName, N.SeenBehind;
      var v := w[j := Node(true, dir, [])];
      if r < 0 {
        assert u[j := Node(false, false, [])] == w[p := u[p]];
      } else {
        var room :| u == v[p := u[p]][j := N.Fresh(j, p, dir, room)];
        assert u == w[p := u[p]][j := N.Fresh(j, p, dir, room)];
        if |w[p].slots| == PER_BLOCK {
          assert u == N.WithSlots(w, p, u[p].slots)[j := N.Fresh(j, p, dir, free > 1)];
        }
      }
    }

    lemma NewInodeRefused(w: World, path: seq<int>, dir: bool, free: nat)
      requires |path| > 0 && path[0] == SLASH && |w| > 2
      ensures |path| > MAX_PATH_LEN ==> N.NewInode(w, path, dir, free) == (w, ENAMETOOLONG)
      ensures SearchParent(w, path) < 0 ==> N.NewInode(w, path, dir, free) == (w, SearchParent(w, path))
      ensures SearchParent(w, path) >= 0 && N.FreeInode(w) == |w| ==> N.NewInode(w, path, dir, free) == (w, ENOMEM)
    {
    }

    lemma UsedIsLive(p: nat)
      requires Valid()
      ensures Live(World(), p) <==> p < NINODES && disk.used[p]
      ensures IsDir(World(), p) <==> p < NINODES && disk.used[p] && dirs[p]
    {
    }

    /** remove_from_parent: 1 when an entry was cleared. */
    method RemoveFromParent(path: seq<int>) returns (r: int)
      requires Valid() && Closed(World()) && |path| > 0 && path[0] == SLASH
      modifies disk`data
      ensures Valid()
      ensures var w, p, name := old(World()), SearchParent(old(World()), path), LastName(path);
              if p <= 0 then r <= 0 && World() == w && r == (if p == 0 then ENOENT else p)
              else if !IsDir(w, p) then r == ENOTDIR && World() == w
              else if Lookup(w[p].slots, name) == 0 then r == ENOENT && World() == w
              else r == 1 && World() == N.WithSlots(w, p, Erase(w[p].slots, name))
    {
      hide Owned, AllBacked, DirsRight, First, Closed;
      var p := SearchParentDirectory(path);
      if p == 0 {
        return ENOENT;
      }
      if p < 0 {
        return p;
      }
      var offset := ExtractLastNameOffset(path);
      r := UnlinkInode(p, path[offset..]);
      if r == 0 {
        return ENOENT;
      }
    }

    /** unlink_inode with remove_dentry. */
    method UnlinkInode(p: nat, name: seq<int>) returns (r: int)
      requires Valid() && p < NINODES && disk.used[p]
      modifies disk`data
      ensures Valid()
      ensures var w := old(World());
              if !dirs[p] then r == ENOTDIR && World() == w
              else if Lookup(w[p].slots, name) == 0 then r == 0 && World() == w
              else r == 1 && World() == N.WithSlots(w, p, Erase(w[p].slots, name))
    {
      hide Owned, AllBacked, DirsRight;
      var hit, k := IterateOverDir(p, Query.Named(name));
      if !dirs[p] || hit == 0 {
        r := hit;
        return;
      }
      ShapeOf(p);
      RemoveRoundTrip(SeenBytes(disk.Img(), p, k));
      StoreInEntry(p, k, InoBytes(0));
      r := 1;
    }

    /** fiuba_rmv_inode. */
    method RemoveInode(path: seq<int>, j: nat) returns (r: int)
      requires Valid() && Closed(World()) && |path| > 0 && path[0] == SLASH && ROOT <= j < NINODES && disk.used[j]
      modifies this`links, disk`bitmap, disk`data, disk`inodes, disk`used
      ensures Valid() && (World(), r) == N.RemoveInode(old(World()), path, j)
    {
      hide Owned, AllBacked, DirsRight, Closed, Erase, SearchParent;
      r := RemoveFromParent(path);
      if r <= 0 {
        return;
      }
      SubtractLink(j);
      r := 0;
    }

    /** substract_link. */
    method SubtractLink(j: nat)
      requires Valid() && ROOT <= j < NINODES && disk.used[j]
      modifies this`links, disk`bitmap, disk`inodes, disk`used
      ensures Valid() && World() == old(World())[j := Node(false, false, [])]
    {
      ghost var m := disk.Img();
      hide DirsRight, Owned, SameFile;
      links := links[j := links[j] - 1];
      if links[j] == 0 {
        disk.DeallocateInode(j);
        StillSized(disk.Img());
        OneNodeDiffers(m, disk.Img(), dirs, dirs, j);
      }
    }

    // ---------------------------------------------------------------- the calls of fisopfs.c

    /** fisopfs_mknod, and fisopfs_mkdir. */
    method Mknod(path: seq<int>, dir: bool) returns (r: int)
      requires Valid() && Closed(World()) && |path| > 0 && path[0] == SLASH && IsName(LastName(path))
      modifies this`dirs, this`links, disk`bitmap, disk`data, disk`inodes, disk`used
      ensures Valid() && N.Creates(old(World()), path, dir, FreeBlocks(old(disk.bitmap)), World(), r)
    {
      hide Owned, AllBacked, DirsRight, Closed, HasSlot, SearchParent, FreeBlocks, N.Crowded, N.Roomy, N.NewInode, WorldOf, Valid, Disk.Valid;
      var result := SearchInode(path);
      if result > 0 {
        return EEXIST;
      }
      r := NewInode(path, dir);
    }

    /** fisopfs_unlink. */
    method Unlink(path: seq<int>) returns (r: int)
      requires Valid() && Closed(World()) && |path| > 0 && path[0] == SLASH
      modifies this`links, disk`bitmap, disk`data, disk`inodes, disk`used
      ensures Valid() && (World(), r) == N.Unlink(old(World()), path)
    {
      hide Owned, AllBacked, DirsRight, Closed, SearchParent;
      var j := SearchInode(path);
      if j == 0 {
        return ENOENT;
      } else if j < 0 {
        return j;
      }
      if dirs[j] {
        return EISDIR;
      }
      r := RemoveInode(path, j);
    }

    /** fisopfs_rmdir. */
    method Rmdir(path: seq<int>) returns (r: int)
      requires Valid() && Closed(World()) && |path| > 0 && path[0] == SLASH
      modifies this`links, disk`bitmap, disk`data, disk`inodes, disk`used
      ensures Valid() && (World(), r) == N.Rmdir(old(World()), path)
    {
      hide Owned, AllBacked, DirsRight, Closed, SearchParent;
      var j := SearchInode(path);
      if j == 0 {
        return ENOENT;
      } else if j < 0 {
        return j;
      }
      if !dirs[j] {
        return ENOTDIR;
      }
      var empty := DirIsEmpty(j);
      if !empty {
        return ENOTEMPTY;
      }
      r := RemoveInode(path, j);
    }

    /** fisopfs_write: writing a file leaves every directory as it was. */
    method WriteFile(path: seq<int>, text: seq<int>, offset: nat) returns (r: int)
      requires Valid() && Closed(World())
      modifies disk`bitmap, disk`data, disk`inodes
      ensures Valid() && World() == old(World())
      ensures var i := Paths.SearchInode(old(World()), path);
              if i < 0 then r == i && disk.Img() == old(disk.Img())
              else if IsDir(old(World()), i) then r == EINVAL && disk.Img() == old(disk.Img())
              else && OthersSame(old(disk.Img()), disk.Img(), i)
                   && (r == EINVAL <==> old(Size(disk.Img(), i)) < offset)
                   && (r == ENOMEM <==> offset <= old(Size(disk.Img(), i)) && (offset + |text|) / BLOCK_SIZE >= MAX_BLOCKS)
                   && (r >= 0 <==> offset <= old(Size(disk.Img(), i)) && old(Fs.Fits(disk.Img(), i, offset, |text|)))
                   && (if r >= 0 then r == |text| && Size(disk.Img(), i) == offset + |text|
                       else r in {EINVAL, ENOMEM, ENOSPC} && Size(disk.Img(), i) == old(Size(disk.Img(), i)))
                   && exists w: nat :: Placed(old(disk.Img()), disk.Img(), i, offset, text, w) && (r >= 0 ==> w == |text|)
    {
      ghost var m := disk.Img();
      hide Owned, DirsRight, Closed, OthersSame, FreeBlocks, Fs.Fits, Placed;
      var i := SearchInode(path);
      if i < 0 {
        return i;
      }
      if dirs[i] {
        return EINVAL;
      }
      ghost var w;
      r, w := disk.Write(i, text, offset);
      OneNodeChanges(m, disk.Img(), dirs, i);
    }

    // ---------------------------------------------------------------- whole runs

    /** Is there a block for the dots of a new directory? */
    method AnyBlockFree() returns (b: bool)
      requires Valid()
      ensures b <==> FreeBlocks(disk.bitmap) > 0
    {
      var i := 0;
      while i < |disk.bitmap|
        invariant i <= |disk.bitmap| && forall j: nat | j < i :: disk.bitmap[j]
      {
        if !disk.bitmap[i] {
          FreeBlocksAfterMark(disk.bitmap, i);
          return true;
        }
        i := i + 1;
      }
      NoneFree(disk.bitmap);
      b := false;
    }

    method DirHasSlot(p: nat) returns (b: bool)
      requires Valid() && p < NINODES && disk.used[p] && dirs[p]
      ensures b <==> HasSlot(World()[p].slots)
    {
      ShapeOf(p);
      EntryFits(disk.Img(), p);
      FirstHits(World()[p].slots, Free);
      hide Owned, Disk.Valid, DirsRight, WorldOf, SlotsOf, Hit;
      if disk.inodes[p].size < PER_BLOCK * ENTRY {
        return true;
      }
      var hit, k := IterateOverDir(p, Free);
      b := hit != 0;
    }

    /** A caller can find out whether a call is safe, by calls that change nothing. */
    method CanCreate(path: seq<int>, dir: bool) returns (b: bool)
      requires Valid() && Closed(World())
      ensures b <==> N.Guard(World(), N.MakeNode(path, dir, FreeBlocks(disk.bitmap)))
    {
      hide Owned, Disk.Valid, DirsRight, Closed, WorldOf, HasSlot, FreeBlocks, SearchParent, Paths.SearchInode, LastName, PlainName, SingleSlashes, First;
      if !N.Proper(path) {
        return false;
      }
      var free := AnyBlockFree();
      if dir && !free {
        return false;
      }
      var found := SearchInode(path);
      var p := SearchParentDirectory(path);
      if p < 0 {
        return true;
      }
      UsedIsLive(p);
      if !dirs[p] {
        return false;
      }
      var slot := DirHasSlot(p);
      var hit, k := IterateOverDir(p, Query.Named(LastName(path)));
      FirstHits(World()[p].slots, Query.Named(LastName(path)));
      LookupIsHit(World()[p].slots, LastName(path));
      b := slot && (found > 0 || hit == 0);
    }

    lemma LookupIsHit(slots: seq<Slot>, name: seq<int>)
      ensures Lookup(slots, name) == if First(slots, Named(name)) < |slots| then Hit(Named(name), slots[First(slots, Named(name))]) else 0
    {
    }

    /** Make the call if it is safe. */
    method Perform(q: Request) returns (r: Option<int>)
      requires Valid() && Tree(World())
      modifies this`dirs, this`links, disk`bitmap, disk`data, disk`inodes, disk`used
      ensures Valid() && Tree(World())
      ensures World() == Serve(old(World()), q, FreeBlocks(old(disk.bitmap))).0
      ensures !q.Put? ==> r == Serve(old(World()), q, FreeBlocks(old(disk.bitmap))).1
    {
      hide Valid, Tree, Closed, WorldOf, HasSlot, FreeBlocks, SearchParent, Paths.SearchInode, LastName, PlainName, SingleSlashes, N.Roomy, N.Crowded, N.NewInode;
      ghost var w := World();
      TreeIsClosed(w);
      ServeKeepsTree(w, q, FreeBlocks(disk.bitmap));
      var x;
      match q {
        case Create(path, dir) =>
          var safe := CanCreate(path, dir);
          if !safe {
            return None;
          }
          x := Mknod(path, dir);
        case Remove(path) =>
          if !N.Proper(path) {
            return None;
          }
          x := Unlink(path);
        case RemoveDir(path) =>
          if !N.Proper(path) {
            return None;
          }
          x := Rmdir(path);
        case Put(path, text, offset) =>
          x := WriteFile(path, text, offset);
      }
      r := Some(x);
    }

    /** MAIN RESULT: whatever is asked of a new volume, each request has the result and the effect it
        has on the namespace, unless it is not safe; and at any time every inode in use has exactly one
        path without dots, and nothing else has any. */
    method Session(requests: seq<Request>) returns (results: seq<Option<int>>, ghost frees: seq<nat>)
      requires Valid() && World() == N.Boot(NINODES)
      modifies this`dirs, this`links, disk`bitmap, disk`data, disk`inodes, disk`used
      ensures Valid() && |results| == |frees| == |requests| && World() == Served(N.Boot(NINODES), requests, frees)
      ensures forall i: nat | i < |requests| && !requests[i].Put? ::
                results[i] == Serve(Served(N.Boot(NINODES), requests[..i], frees[..i]), requests[i], frees[i]).1
      ensures Tree(World()) && Closed(World())
      ensures forall j: nat | ROOT <= j && Live(World(), j) :: HasOnePath(World(), j)
      ensures forall j: nat, names | !Live(World(), j) :: Walk(World(), ROOT, names) != j
    {
      hide Valid, Tree, Closed, WorldOf, N.Boot, Live, Serve, FreeBlocks;
      N.BootIsTree(NINODES);
      results, frees := [], [];
      for n := 0 to |requests|
        invariant Valid() && Tree(World()) && |results| == |frees| == n && World() == Served(N.Boot(NINODES), requests[..n], frees)
        invariant forall i: nat | i < n && !requests[i].Put? ::
                    results[i] == Serve(Served(N.Boot(NINODES), requests[..i], frees[..i]), requests[i], frees[i]).1
      {
        ghost var free := FreeBlocks(disk.bitmap);
        var r := Perform(requests[n]);
        assert requests[..n + 1][..n] == requests[..n] && (frees + [free])[..n] == frees;
        assert forall i: nat | i <= n :: (frees + [free])[..i] == frees[..i];
        results, frees := results + [r], frees + [free];
      }
      assert requests[..|requests|] == requests;
      ServedKeepsTree(requests, frees);
    }
  }
}
