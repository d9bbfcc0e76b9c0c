/** The inode layer of fs.c: block bitmap, twelve direct blocks and one indirect table per file.

    The indirect table is an ordinary data block, so a stray write to file data could rewrite a
    file's map of blocks, and a table write could rewrite file data.  `Owned` is what keeps every
    block in one role.  `Image` is a snapshot of the disk; what is proved about files is proved
    about images, and each method of `Disk` says how it changes the image. */
module Fs {

  const BLOCK_SIZE: nat := 32768
  const NBLOCKS: nat := 6300           // BLOCK_AMOUNT
  const NINODES: nat := 6300           // INODE_AMOUNT
  const NDIRECT: nat := 12
  const KIB: nat := 1024
  const NTABLE: nat := 8192            // entries of the indirect table
  const MAX_BLOCKS: nat := 8204        // MAX_BLOCK_COUNT

  const EINVAL: int := -22
  const ENOMEM: int := -12
  const ENOSPC: int := -28

  /** A block read as bytes and as the little-endian integers of an indirect table.  What is
      written in one reading shows in the other. */
  datatype Block = Block(bytes: seq<int>, ints: seq<int>)

  predicate WholeBlock(b: Block) {
    |b.bytes| == BLOCK_SIZE && |b.ints| == NTABLE
  }

  function IntAt(bytes: seq<int>, k: nat): int
    requires 4 * k + 3 < |bytes|
  {
    bytes[4 * k] + 0x100 * bytes[4 * k + 1] + 0x1_0000 * bytes[4 * k + 2] + 0x100_0000 * bytes[4 * k + 3]
  }

  function WithByte(b: Block, off: nat, v: int): (r: Block)
    requires WholeBlock(b) && off < BLOCK_SIZE
    ensures WholeBlock(r) && r.bytes == b.bytes[off := v]
  {
    var bytes := b.bytes[off := v];
    Block(bytes, b.ints[off / 4 := IntAt(bytes, off / 4)])
  }

  function WithInt(b: Block, k: nat, v: nat): (r: Block)
    requires WholeBlock(b) && k < NTABLE && v < 0x1_0000_0000
    ensures WholeBlock(r) && r.ints == b.ints[k := v] && IntAt(r.bytes, k) == v
  {
    var bytes := b.bytes[4 * k := v % 0x100][4 * k + 1 := v / 0x100 % 0x100];
    Block(bytes[4 * k + 2 := v / 0x1_0000 % 0x100][4 * k + 3 := v / 0x100_0000], b.ints[k := v])
  }

  datatype Inode = Inode(size: nat, direct: seq<int>, table: int, amount: nat)

  datatype Image = Image(bitmap: seq<bool>, data: seq<Block>, inodes: seq<Inode>, used: seq<bool>)

  /** Stands for the table itself among a file's block indices. */
  const TABLE: nat := MAX_BLOCKS

  ghost predicate Sized(m: Image) {
    && |m.bitmap| == |m.data| == NBLOCKS && |m.inodes| == |m.used| == NINODES
    && (forall d: nat | d < NBLOCKS :: WholeBlock(m.data[d]))
    && (forall i: nat | i < NINODES :: |m.inodes[i].direct| == NDIRECT)
  }

  predicate IsBlock(d: int) {
    0 <= d < NBLOCKS
  }

  function TableAt(m: Image, d: int, k: nat): int {
    if 0 <= d < |m.data| && k < |m.data[d].ints| then m.data[d].ints[k] else -1
  }

  /** get_inode_block_n: the data block behind index `b` of file `i`. */
  function Number(m: Image, i: nat, b: nat): int {
    if i >= |m.inodes| then -1
    else if b == TABLE then m.inodes[i].table
    else if b < NDIRECT then (if b < |m.inodes[i].direct| then m.inodes[i].direct[b] else -1)
    else TableAt(m, m.inodes[i].table, b - NDIRECT)
  }

  predicate InUse(m: Image, i: nat, b: nat) {
    i < |m.used| == |m.inodes| && m.used[i] && (b < m.inodes[i].amount || (b == TABLE && m.inodes[i].amount > NDIRECT))
  }

  predicate Marked(m: Image, d: int) {
    0 <= d < |m.bitmap| && m.bitmap[d]
  }

  /** Every block in use is marked and has one role. */
  ghost predicate Owned(m: Image) {
    && Sized(m)
    && (forall i: nat | i < NINODES && m.used[i] :: m.inodes[i].amount <= MAX_BLOCKS)
    && (forall i: nat, b: nat | InUse(m, i, b) :: IsBlock(Number(m, i, b)) && Marked(m, Number(m, i, b)))
    && (forall i: nat, b: nat, j: nat, c: nat | InUse(m, i, b) && InUse(m, j, c) && Number(m, i, b) == Number(m, j, c) ::
          i == j && b == c)
  }

  function ByteIn(m: Image, d: int, off: nat): int {
    if 0 <= d < |m.data| && off < |m.data[d].bytes| then m.data[d].bytes[off] else 0
  }

  /** Byte `k` of file `i`, seen through get_inode_block. */
  function ByteOf(m: Image, i: nat, k: nat): int {
    ByteIn(m, Number(m, i, k / BLOCK_SIZE), k % BLOCK_SIZE)
  }

  function Size(m: Image, i: nat): nat {
    if i < |m.inodes| then m.inodes[i].size else 0
  }

  function Amount(m: Image, i: nat): nat {
    if i < |m.inodes| then m.inodes[i].amount else 0
  }

  /** The file has all the blocks its size needs. */
  predicate Backed(m: Image, i: nat) {
    Size(m, i) <= Amount(m, i) * BLOCK_SIZE
  }

  /** ... and at most one more, which is what an append relies on. */
  predicate Tight(m: Image, i: nat) {
    Backed(m, i) && Amount(m, i) <= Size(m, i) / BLOCK_SIZE + 1
  }

  /** A write at `offset` starts in the file's last block, or behind it. */
  predicate InLastBlock(m: Image, i: nat, offset: nat) {
    offset <= Size(m, i) && Amount(m, i) <= offset / BLOCK_SIZE + 1
  }

  ghost predicate AllBacked(m: Image) {
    forall i: nat | i < |m.used| && m.used[i] :: Backed(m, i)
  }

  /** File `j` is the same file, block for block. */
  ghost predicate SameFile(m: Image, n: Image, j: nat) {
    && j < |m.inodes| == |n.inodes| == |m.used| == |n.used| && n.used[j] == m.used[j]
    && Size(n, j) == Size(m, j) && Amount(n, j) == Amount(m, j)
    && (m.used[j] ==> forall b: nat | b < Amount(m, j) :: Number(n, j, b) == Number(m, j, b))
    && (m.used[j] ==> forall b: nat, off: nat | b < Amount(m, j) :: ByteIn(n, Number(m, j, b), off) == ByteIn(m, Number(m, j, b), off))
  }

  ghost predicate OthersSame(m: Image, n: Image, i: nat) {
    forall j: nat | j < NINODES && j != i :: SameFile(m, n, j)
  }

  lemma OthersSameTrans(m: Image, n: Image, o: Image, i: nat)
    requires OthersSame(m, n, i) && OthersSame(n, o, i)
    ensures OthersSame(m, o, i)
  {
    forall j: nat | j < NINODES && j != i
      ensures SameFile(m, o, j)
    {
      assert SameFile(m, n, j) && SameFile(n, o, j);
    }
  }

  // ---------------------------------------------------------------- the bitmap

  function FreeBlocks(bitmap: seq<bool>): nat {
    if |bitmap| == 0 then 0 else FreeBlocks(bitmap[..|bitmap| - 1]) + if bitmap[|bitmap| - 1] then 0 else 1
  }

  lemma {:induction false} FreeBlocksAfterMark(bitmap: seq<bool>, d: nat)
    requires d < |bitmap| && !bitmap[d]
    ensures FreeBlocks(bitmap[d := true]) == FreeBlocks(bitmap) - 1
  {
    var n := |bitmap| - 1;
    if d < n {
      FreeBlocksAfterMark(bitmap[..n], d);
      assert bitmap[d := true][..n] == bitmap[..n][d := true];
    } else {
      assert bitmap[d := true][..n] == bitmap[..n];
    }
  }

  lemma {:induction false} NoneFree(bitmap: seq<bool>)
    requires forall d: nat | d < |bitmap| :: bitmap[d]
    ensures FreeBlocks(bitmap) == 0
  {
    if |bitmap| > 0 {
      NoneFree(bitmap[..|bitmap| - 1]);
    }
  }

  lemma {:induction false} AllFree(bitmap: seq<bool>)
    requires forall d: nat | d < |bitmap| :: !bitmap[d]
    ensures FreeBlocks(bitmap) == |bitmap|
  {
    if |bitmap| > 0 {
      AllFree(bitmap[..|bitmap| - 1]);
    }
  }

  /** Blocks a file of `amount` blocks takes to reach `final`: one more for the table on the way. */
  function Needed(amount: nat, final: nat): int {
    final - amount + if amount <= NDIRECT < final then 1 else 0
  }

  // ---------------------------------------------------------------- steps on images

  /** One byte of file data. */
  function PutByte(m: Image, d: int, off: nat, v: int): Image
    requires Sized(m) && IsBlock(d) && off < BLOCK_SIZE
  {
    m.(data := m.data[d := WithByte(m.data[d], off, v)])
  }

  lemma DataIsNotTable(m: Image, i: nat, b: nat, j: nat)
    requires Owned(m) && InUse(m, i, b) && b != TABLE && j < NINODES && m.used[j] && Amount(m, j) > NDIRECT
    ensures m.inodes[j].table != Number(m, i, b)
  {
    assert InUse(m, j, TABLE) && Number(m, j, TABLE) == m.inodes[j].table;
  }

  /** Writing file data leaves every map of blocks as it was. */
  lemma PutByteKeepsNumbers(m: Image, i: nat, b: nat, off: nat, v: int)
    requires Owned(m) && InUse(m, i, b) && b != TABLE && off < BLOCK_SIZE
    ensures var n := PutByte(m, Number(m, i, b), off, v);
            && Sized(n) && (forall j: nat, c: nat :: InUse(n, j, c) <==> InUse(m, j, c))
            && (forall j: nat, c: nat | InUse(m, j, c) :: Number(n, j, c) == Number(m, j, c))
  {
    var d := Number(m, i, b);
    assert IsBlock(d);
    var n := PutByte(m, d, off, v);
    forall j: nat, c: nat | InUse(m, j, c)
      ensures Number(n, j, c) == Number(m, j, c)
    {
      if c >= NDIRECT && c != TABLE {
        DataIsNotTable(m, i, b, j);
      }
    }
  }

  lemma PutByteKeepsOwned(m: Image, i: nat, b: nat, off: nat, v: int)
    requires Owned(m) && InUse(m, i, b) && b != TABLE && off < BLOCK_SIZE
    ensures var n := PutByte(m, Number(m, i, b), off, v);
            && Owned(n) && OthersSame(m, n, i)
            && n.bitmap == m.bitmap && n.inodes == m.inodes && n.used == m.used
            && (forall c: nat | c < Amount(m, i) :: Number(n, i, c) == Number(m, i, c))
            && (forall c: nat, o: nat | c < Amount(m, i) && o < BLOCK_SIZE ::
                  ByteIn(n, Number(m, i, c), o) == if c == b && o == off then v else ByteIn(m, Number(m, i, c), o))
  {
    var d := Number(m, i, b);
    assert IsBlock(d);
    PutByteKeepsNumbers(m, i, b, off, v);
    var n := PutByte(m, d, off, v);
    forall j: nat, c: nat | j < NINODES && m.used[j] && c < Amount(m, j) && (j != i || c != b)
      ensures Number(m, j, c) != d && InUse(m, j, c)
    {
    }
    assert forall c: nat | c < Amount(m, i) :: InUse(m, i, c);
    forall j: nat | j < NINODES && j != i
      ensures SameFile(m, n, j)
    {
    }
  }

  /** `n` is `m` after file `i` has been given one more block, `d`. */
  ghost predicate Grown(m: Image, n: Image, i: nat, d: int) {
    && Owned(n) && OthersSame(m, n, i) && n.used == m.used
    && Amount(n, i) == Amount(m, i) + 1 && Size(n, i) == Size(m, i)
    && Number(n, i, Amount(m, i)) == d
    && (forall c: nat | c < Amount(m, i) :: Number(n, i, c) == Number(m, i, c))
    && (forall c: nat, o: nat | c < Amount(m, i) && o < BLOCK_SIZE :: ByteIn(n, Number(m, i, c), o) == ByteIn(m, Number(m, i, c), o))
  }

  function Mark(m: Image, d: int): Image {
    if 0 <= d < |m.bitmap| then m.(bitmap := m.bitmap[d := true]) else m
  }

  function SetInode(m: Image, i: nat, f: Inode): Image {
    if i < |m.inodes| then m.(inodes := m.inodes[i := f]) else m
  }

  /** allocate_direct_block. */
  function AddDirect(m: Image, i: nat, d: int): Image
    requires Sized(m) && i < NINODES && Amount(m, i) < NDIRECT
  {
    var f := m.inodes[i];
    SetInode(Mark(m, d), i, Inode(f.size, f.direct[f.amount := d], f.table, f.amount + 1))
  }

  lemma DirectGrows(m: Image, i: nat, d: int)
    requires Owned(m) && i < NINODES && m.used[i] && Amount(m, i) < NDIRECT && IsBlock(d) && !Marked(m, d)
    ensures Grown(m, AddDirect(m, i, d), i, d)
  {
    var n := AddDirect(m, i, d);
    forall j: nat, c: nat | InUse(n, j, c)
      ensures if j == i && c == Amount(m, i) then Number(n, j, c) == d else InUse(m, j, c) && Number(n, j, c) == Number(m, j, c)
    {
    }
    forall j: nat | j < NINODES && j != i
      ensures SameFile(m, n, j)
    {
    }
  }

  /** One entry of an indirect table. */
  function PutInt(m: Image, d: int, k: nat, v: int): Image
    requires Sized(m) && IsBlock(d) && k < NTABLE && IsBlock(v)
  {
    m.(data := m.data[d := WithInt(m.data[d], k, v)])
  }

  /** The last lines of allocate_indirect_block. */
  function AddIndirect(m: Image, i: nat, d: int): Image
    requires Sized(m) && i < NINODES && NDIRECT <= Amount(m, i) < MAX_BLOCKS && IsBlock(m.inodes[i].table) && IsBlock(d)
  {
    var f := m.inodes[i];
    SetInode(PutInt(Mark(m, d), f.table, f.amount - NDIRECT, d), i, Inode(f.size, f.direct, f.table, f.amount + 1))
  }

  /** Block `t` serves file `i` as its table, or nobody. */
  ghost predicate TableFor(m: Image, i: nat, t: int) {
    IsBlock(t) && Marked(m, t) && forall j: nat, c: nat | InUse(m, j, c) && Number(m, j, c) == t :: j == i && c == TABLE
  }

  lemma IndirectNumbers(m: Image, i: nat, d: int)
    requires Owned(m) && i < NINODES && m.used[i] && NDIRECT <= Amount(m, i) < MAX_BLOCKS && IsBlock(d) && !Marked(m, d)
    requires TableFor(m, i, m.inodes[i].table)
    ensures var n := AddIndirect(m, i, d);
            forall j: nat, c: nat | InUse(n, j, c) ::
              if j == i && c == Amount(m, i) then Number(n, j, c) == d
              else if j == i && c == TABLE then Number(n, j, c) == m.inodes[i].table
              else InUse(m, j, c) && Number(n, j, c) == Number(m, j, c) != m.inodes[i].table
  {
    var n, t := AddIndirect(m, i, d), m.inodes[i].table;
    forall j: nat, c: nat | InUse(n, j, c)
      ensures if j == i && c == Amount(m, i) then Number(n, j, c) == d
              else if j == i && c == TABLE then Number(n, j, c) == t
              else InUse(m, j, c) && Number(n, j, c) == Number(m, j, c) != t
    {
      if j != i && Amount(m, j) > NDIRECT {
        assert InUse(m, j, TABLE) && Number(m, j, TABLE) == m.inodes[j].table;
      }
    }
  }

  lemma IndirectGrows(m: Image, i: nat, d: int)
    requires Owned(m) && i < NINODES && m.used[i] && NDIRECT <= Amount(m, i) < MAX_BLOCKS && IsBlock(d) && !Marked(m, d)
    requires TableFor(m, i, m.inodes[i].table)
    ensures Grown(m, AddIndirect(m, i, d), i, d)
  {
    IndirectNumbers(m, i, d);
    var n, t := AddIndirect(m, i, d), m.inodes[i].table;
    forall j: nat, c: nat | InUse(m, j, c) && c != TABLE
      ensures InUse(n, j, c) && Number(n, j, c) == Number(m, j, c) && m.data[Number(m, j, c)] == n.data[Number(m, j, c)]
    {
      assert InUse(n, j, c);
    }
    assert forall c: nat | c < Amount(m, i) :: InUse(m, i, c);
    forall j: nat | j < NINODES && j != i
      ensures SameFile(m, n, j)
    {
      assert m.used[j] ==> forall c: nat | c < Amount(m, j) :: InUse(m, j, c);
    }
    assert InUse(n, i, Amount(m, i));
  }

  /** A table block just taken belongs to nobody yet. */
  function TakeTable(m: Image, i: nat, t: int): Image
    requires Sized(m) && i < NINODES
  {
    var f := m.inodes[i];
    SetInode(Mark(m, t), i, Inode(f.size, f.direct, t, f.amount))
  }

  lemma TakeTableKeeps(m: Image, i: nat, t: int)
    requires Owned(m) && i < NINODES && m.used[i] && Amount(m, i) == NDIRECT && IsBlock(t) && !Marked(m, t)
    ensures var n := TakeTable(m, i, t);
            && Owned(n) && OthersSame(m, n, i) && n.used == m.used && n.data == m.data && TableFor(n, i, t)
            && n.inodes[i] == Inode(Size(m, i), m.inodes[i].direct, t, NDIRECT)
            && (forall c: nat | c < NDIRECT :: Number(n, i, c) == Number(m, i, c))
  {
    var n := TakeTable(m, i, t);
    assert forall j: nat, c: nat :: InUse(n, j, c) <==> InUse(m, j, c);
    assert forall j: nat, c: nat | InUse(n, j, c) :: Number(n, j, c) == Number(m, j, c);
    forall j: nat | j < NINODES && j != i
      ensures SameFile(m, n, j)
    {
    }
  }

  // ---------------------------------------------------------------- bytes of a file

  lemma BlockOfByte(k: nat, b: nat, off: nat)
    requires off < BLOCK_SIZE
    ensures k == b * BLOCK_SIZE + off <==> k / BLOCK_SIZE == b && k % BLOCK_SIZE == off
  {
  }

  lemma ByteIsBacked(k: nat, amount: nat)
    requires k < amount * BLOCK_SIZE
    ensures k / BLOCK_SIZE < amount && k % BLOCK_SIZE < BLOCK_SIZE
  {
  }

  /** One byte written is one byte of the file changed. */
  lemma BytesAfterPut(m: Image, i: nat, b: nat, off: nat, v: int, k: nat)
    requires Owned(m) && InUse(m, i, b) && b < Amount(m, i) && b != TABLE && off < BLOCK_SIZE && k < Amount(m, i) * BLOCK_SIZE
    ensures IsBlock(Number(m, i, b))
    ensures ByteOf(PutByte(m, Number(m, i, b), off, v), i, k) == if k == b * BLOCK_SIZE + off then v else ByteOf(m, i, k)
  {
    PutByteKeepsOwned(m, i, b, off, v);
    ByteIsBacked(k, Amount(m, i));
    BlockOfByte(k, b, off);
  }

  lemma BytesAfterGrow(m: Image, n: Image, i: nat, d: int, k: nat)
    requires Grown(m, n, i, d) && k < Amount(m, i) * BLOCK_SIZE
    ensures ByteOf(n, i, k) == ByteOf(m, i, k)
  {
    ByteIsBacked(k, Amount(m, i));
  }

  /** calc_last_block_idx is the block of the end offset. */
  function CalcLast(idx: nat, off: nat, size: nat): nat {
    idx + size / BLOCK_SIZE + if size % BLOCK_SIZE + off >= BLOCK_SIZE then 1 else 0
  }

  lemma CalcLastIsEndBlock(offset: nat, size: nat)
    ensures CalcLast(offset / BLOCK_SIZE, offset % BLOCK_SIZE, size) == (offset + size) / BLOCK_SIZE
  {
    var a, b := offset / BLOCK_SIZE, size / BLOCK_SIZE;
    var x := offset % BLOCK_SIZE + size % BLOCK_SIZE;
    assert offset + size == (a + b) * BLOCK_SIZE + x;
    if x >= BLOCK_SIZE {
      BlockOfByte(offset + size, a + b + 1, x - BLOCK_SIZE);
    } else {
      BlockOfByte(offset + size, a + b, x);
    }
  }

  // ---------------------------------------------------------------- where a write puts its bytes

  /** The blocks a file of `amount` blocks has once a write at `offset` has its first block. */
  function Behind(amount: nat, offset: nat): nat {
    if amount > offset / BLOCK_SIZE then amount else offset / BLOCK_SIZE + 1
  }

  /** Where byte `k` of a write goes: in place up to the end of its first block, and from there on
      into new blocks behind all that the file has. */
  function Dest(amount: nat, offset: nat, k: nat): nat {
    var q := offset % BLOCK_SIZE + k;
    if q < BLOCK_SIZE then offset + k else Behind(amount, offset) * BLOCK_SIZE + (q - BLOCK_SIZE)
  }

  /** `w` bytes of `text` are where they go, and all other old bytes where they were. */
  ghost predicate Placed(m0: Image, m: Image, i: nat, offset: nat, text: seq<int>, w: nat) {
    && w <= |text|
    && (forall k: nat | k < w :: ByteOf(m, i, Dest(Amount(m0, i), offset, k)) == text[k])
    && (forall k: nat | k < Amount(m0, i) * BLOCK_SIZE && !(offset <= k < offset + w && k / BLOCK_SIZE == offset / BLOCK_SIZE) ::
          ByteOf(m, i, k) == ByteOf(m0, i, k))
  }

  /** A write lands in one piece exactly when it starts in the file's last block or does not leave
      the block it starts in. */
  lemma WriteIsInOnePieceExactly(m: Image, i: nat, offset: nat, n: nat)
    requires offset <= Size(m, i)
    ensures (forall k: nat | k < n :: Dest(Amount(m, i), offset, k) == offset + k) <==>
              InLastBlock(m, i, offset) || offset % BLOCK_SIZE + n <= BLOCK_SIZE
  {
    var b := offset / BLOCK_SIZE;
    assert offset == b * BLOCK_SIZE + offset % BLOCK_SIZE;
    if !InLastBlock(m, i, offset) && offset % BLOCK_SIZE + n > BLOCK_SIZE {
      var k: nat := BLOCK_SIZE - offset % BLOCK_SIZE;
      assert Dest(Amount(m, i), offset, k) != offset + k;
    }
  }

  /** Where a write stands after `w` bytes: in block `c` at `off`, or in want of a block. */
  predicate Cursor(amount: nat, before: nat, offset: nat, w: nat, d: int, c: nat, off: nat) {
    var q, e := offset % BLOCK_SIZE + w, Behind(before, offset);
    if d >= 0 then
      off == q % BLOCK_SIZE && amount == e + q / BLOCK_SIZE && c == if q < BLOCK_SIZE then offset / BLOCK_SIZE else amount - 1
    else
      off == 0 && q % BLOCK_SIZE == 0 && amount == e + q / BLOCK_SIZE - 1 && (q == 0 ==> before <= offset / BLOCK_SIZE)
  }

  lemma CursorIsDest(amount: nat, before: nat, offset: nat, w: nat, c: nat, off: nat)
    requires Cursor(amount, before, offset, w, 0, c, off)
    ensures c < amount && off < BLOCK_SIZE && Dest(before, offset, w) == c * BLOCK_SIZE + off < amount * BLOCK_SIZE
  {
    var q := offset % BLOCK_SIZE + w;
    assert offset == offset / BLOCK_SIZE * BLOCK_SIZE + offset % BLOCK_SIZE;
    assert q == q / BLOCK_SIZE * BLOCK_SIZE + q % BLOCK_SIZE;
  }

  lemma CursorMoves(amount: nat, before: nat, offset: nat, w: nat, d: int, c: nat, off: nat)
    requires Cursor(amount, before, offset, w, d, c, off) && d >= 0
    ensures if off + 1 < BLOCK_SIZE then Cursor(amount, before, offset, w + 1, d, c, off + 1)
            else Cursor(amount, before, offset, w + 1, -1, c, 0)
  {
    var q := offset % BLOCK_SIZE + w;
    if off + 1 < BLOCK_SIZE {
      BlockOfByte(q + 1, q / BLOCK_SIZE, off + 1);
    } else {
      BlockOfByte(q + 1, q / BLOCK_SIZE + 1, 0);
    }
  }

  lemma DestIncreases(before: nat, offset: nat, j: nat, k: nat)
    requires j < k
    ensures Dest(before, offset, j) < Dest(before, offset, k)
  {
    assert offset == offset / BLOCK_SIZE * BLOCK_SIZE + offset % BLOCK_SIZE;
  }

  lemma DestIsBelow(amount: nat, before: nat, offset: nat, w: nat, d: int, c: nat, off: nat, k: nat)
    requires Cursor(amount, before, offset, w, d, c, off) && k < w
    ensures Dest(before, offset, k) < amount * BLOCK_SIZE
  {
    if d >= 0 {
      CursorIsDest(amount, before, offset, w, c, off);
      DestIncreases(before, offset, k, w);
    } else {
      var q := offset % BLOCK_SIZE + w;
      assert q == q / BLOCK_SIZE * BLOCK_SIZE;
      assert offset == offset / BLOCK_SIZE * BLOCK_SIZE + offset % BLOCK_SIZE;
      if k < w - 1 {
        DestIncreases(before, offset, k, w - 1);
      }
    }
  }

  lemma PlaceByte(m0: Image, m: Image, i: nat, offset: nat, text: seq<int>, w: nat, c: nat, off: nat)
    requires Owned(m) && i < NINODES && m.used[i] && Amount(m0, i) <= Amount(m, i)
    requires Placed(m0, m, i, offset, text, w) && w < |text| && Cursor(Amount(m, i), Amount(m0, i), offset, w, 0, c, off)
    ensures c < Amount(m, i) && off < BLOCK_SIZE && IsBlock(Number(m, i, c))
    ensures Placed(m0, PutByte(m, Number(m, i, c), off, text[w]), i, offset, text, w + 1)
  {
    var before := Amount(m0, i);
    CursorIsDest(Amount(m, i), before, offset, w, c, off);
    InUseFacts(m, i, c);
    hide Owned;
    var n := PutByte(m, Number(m, i, c), off, text[w]);
    forall k: nat | k < Amount(m, i) * BLOCK_SIZE
      ensures ByteOf(n, i, k) == if k == Dest(before, offset, w) then text[w] else ByteOf(m, i, k)
    {
      BytesAfterPut(m, i, c, off, text[w], k);
    }
    hide ByteOf, PutByte, InUse;
    forall k: nat | k < w + 1
      ensures ByteOf(n, i, Dest(before, offset, k)) == text[k]
    {
      if k < w {
        DestIncreases(before, offset, k, w);
      }
    }
    forall k: nat | k < before * BLOCK_SIZE && !(offset <= k < offset + w + 1 && k / BLOCK_SIZE == offset / BLOCK_SIZE)
      ensures ByteOf(n, i, k) == ByteOf(m0, i, k)
    {
      DestIsOutside(before, offset, w, k);
    }
  }

  /** Byte `w` of a write goes to no old byte but the one it is written over. */
  lemma DestIsOutside(before: nat, offset: nat, w: nat, k: nat)
    requires k < before * BLOCK_SIZE && !(k == offset + w && k / BLOCK_SIZE == offset / BLOCK_SIZE)
    ensures Dest(before, offset, w) != k
  {
    assert offset == offset / BLOCK_SIZE * BLOCK_SIZE + offset % BLOCK_SIZE;
    if offset % BLOCK_SIZE + w < BLOCK_SIZE {
      BlockOfByte(offset + w, offset / BLOCK_SIZE, offset % BLOCK_SIZE + w);
    }
  }

  lemma PlaceGrow(m0: Image, m: Image, n: Image, i: nat, d: int, offset: nat, text: seq<int>, w: nat, c: nat)
    requires Placed(m0, m, i, offset, text, w) && Grown(m, n, i, d) && Amount(m0, i) <= Amount(m, i)
    requires Cursor(Amount(m, i), Amount(m0, i), offset, w, -1, c, 0)
    ensures Placed(m0, n, i, offset, text, w)
  {
    forall k: nat | k < Amount(m, i) * BLOCK_SIZE
      ensures ByteOf(n, i, k) == ByteOf(m, i, k)
    {
      BytesAfterGrow(m, n, i, d, k);
    }
    hide Grown, ByteOf;
    forall k: nat | k < w
      ensures ByteOf(n, i, Dest(Amount(m0, i), offset, k)) == text[k]
    {
      DestIsBelow(Amount(m, i), Amount(m0, i), offset, w, -1, c, 0, k);
    }
  }

  lemma InUseFacts(m: Image, i: nat, c: nat)
    requires Owned(m) && i < NINODES && m.used[i] && c < Amount(m, i)
    ensures InUse(m, i, c) && c != TABLE && IsBlock(Number(m, i, c)) && Marked(m, Number(m, i, c))
  {
    assert InUse(m, i, c);
  }

  /** The state of fiuba_write's loop after `w` bytes: `d` is block `c` of the file, or negative
      when a block is wanted. */
  ghost predicate Writing(m0: Image, m: Image, i: nat, offset: nat, text: seq<int>, w: nat, d: int, c: nat, off: nat) {
    && Owned(m) && OthersSame(m0, m, i) && m.used == m0.used && i < NINODES && m.used[i]
    && Size(m, i) == Size(m0, i) && Amount(m0, i) <= Amount(m, i)
    && Placed(m0, m, i, offset, text, w) && Cursor(Amount(m, i), Amount(m0, i), offset, w, d, c, off)
    && (d >= 0 ==> d == Number(m, i, c))
    && FreeBlocks(m.bitmap) == FreeBlocks(m0.bitmap) - Needed(Amount(m0, i), Amount(m, i))
  }

  lemma StillSized(m: Image)
    requires Owned(m)
    ensures Sized(m)
  {
  }

  /** One byte. */
  lemma PutStep(m0: Image, m: Image, i: nat, offset: nat, text: seq<int>, w: nat, d: int, c: nat, off: nat)
    requires Writing(m0, m, i, offset, text, w, d, c, off) && d >= 0 && w < |text|
    ensures Sized(m) && IsBlock(d) && off < BLOCK_SIZE
    ensures var o := PutByte(m, d, off, text[w]);
            if off + 1 < BLOCK_SIZE then Writing(m0, o, i, offset, text, w + 1, d, c, off + 1)
            else Writing(m0, o, i, offset, text, w + 1, -1, c, 0)
  {
    hide Owned, OthersSame, Placed, FreeBlocks;
    StillSized(m);
    CursorIsDest(Amount(m, i), Amount(m0, i), offset, w, c, off);
    InUseFacts(m, i, c);
    PutByteKeepsOwned(m, i, c, off, text[w]);
    OthersSameTrans(m0, m, PutByte(m, d, off, text[w]), i);
    PlaceByte(m0, m, i, offset, text, w, c, off);
    CursorMoves(Amount(m, i), Amount(m0, i), offset, w, d, c, off);
  }

  /** A fresh block where the last one ended. */
  lemma GrowStep(m0: Image, m: Image, o: Image, i: nat, offset: nat, text: seq<int>, w: nat, c: nat, d: int)
    requires Writing(m0, m, i, offset, text, w, -1, c, 0) && Grown(m, o, i, d) && d >= 0
    requires FreeBlocks(o.bitmap) == FreeBlocks(m.bitmap) - Needed(Amount(m, i), Amount(m, i) + 1)
    ensures Writing(m0, o, i, offset, text, w, d, Amount(m, i), 0)
  {
    hide Owned, FreeBlocks, Placed;
    OthersSameTrans(m0, m, o, i);
    PlaceGrow(m0, m, o, i, d, offset, text, w, c);
  }

  // ---------------------------------------------------------------- the two ends of a write

  function Resized(m: Image, i: nat, size: nat): Image
    requires i < |m.inodes|
  {
    var f := m.inodes[i];
    SetInode(m, i, Inode(size, f.direct, f.table, f.amount))
  }

  /** The size is nobody's block. */
  lemma ResizeKeeps(m: Image, i: nat, size: nat)
    requires Owned(m) && i < NINODES && m.used[i]
    ensures var n := Resized(m, i, size);
            && Owned(n) && OthersSame(m, n, i) && Size(n, i) == size && Amount(n, i) == Amount(m, i)
            && forall k: nat :: ByteOf(n, i, k) == ByteOf(m, i, k)
  {
    var n := Resized(m, i, size);
    assert forall j: nat, c: nat :: InUse(n, j, c) <==> InUse(m, j, c);
    assert forall j: nat, c: nat :: Number(n, j, c) == Number(m, j, c);
    forall j: nat | j < NINODES && j != i
      ensures SameFile(m, n, j)
    {
    }
  }

  lemma OthersStayBacked(m: Image, n: Image, i: nat)
    requires AllBacked(m) && OthersSame(m, n, i) && n.used == m.used && |m.used| == NINODES && Backed(n, i)
    ensures AllBacked(n)
  {
    forall j: nat | j < NINODES && n.used[j]
      ensures Backed(n, j)
    {
      assert j != i ==> SameFile(m, n, j) && Backed(m, j);
    }
  }

  lemma FirstBlockIsNext(m: Image, i: nat, offset: nat, text: seq<int>)
    requires Owned(m) && i < NINODES && m.used[i] && Backed(m, i) && offset <= Size(m, i) && offset / BLOCK_SIZE >= Amount(m, i)
    ensures offset % BLOCK_SIZE == 0 && Writing(m, m, i, offset, text, 0, -1, offset / BLOCK_SIZE, 0)
  {
    hide FreeBlocks;
    assert offset == offset / BLOCK_SIZE * BLOCK_SIZE + offset % BLOCK_SIZE;
    StillSized(m);
    NothingChanges(m, i);
    hide Owned;
  }

  lemma FirstBlockIsThere(m: Image, i: nat, offset: nat, text: seq<int>)
    requires Owned(m) && i < NINODES && m.used[i] && Backed(m, i) && offset <= Size(m, i) && offset / BLOCK_SIZE < Amount(m, i)
    ensures var b := offset / BLOCK_SIZE; Writing(m, m, i, offset, text, 0, Number(m, i, b), b, offset % BLOCK_SIZE)
  {
    hide FreeBlocks;
    StillSized(m);
    NothingChanges(m, i);
    InUseFacts(m, i, offset / BLOCK_SIZE);
    hide Owned;
  }

  lemma NothingChanges(m: Image, i: nat)
    requires Sized(m)
    ensures OthersSame(m, m, i)
  {
  }

  predicate NoRoom(m: Image, i: nat) {
    Amount(m, i) >= MAX_BLOCKS || FreeBlocks(m.bitmap) < Needed(Amount(m, i), Amount(m, i) + 1)
  }

  /** The blocks of the file after a write of `n` bytes. */
  function Final(amount: nat, offset: nat, n: nat): nat {
    Behind(amount, offset) + (offset % BLOCK_SIZE + n) / BLOCK_SIZE
  }

  /** There are entries and blocks for a write of `n` bytes. */
  predicate Fits(m: Image, i: nat, offset: nat, n: nat) {
    var before, after := Amount(m, i), Final(Amount(m, i), offset, n);
    after <= MAX_BLOCKS && FreeBlocks(m.bitmap) >= Needed(before, after)
  }

  lemma FailedWrite(m0: Image, m: Image, i: nat, offset: nat, text: seq<int>, w: nat, d: int, c: nat, off: nat)
    requires Writing(m0, m, i, offset, text, w, d, c, off) && d < 0 && AllBacked(m0) && NoRoom(m, i)
    ensures Owned(m) && OthersSame(m0, m, i) && m.used == m0.used && Size(m, i) == Size(m0, i) && AllBacked(m)
    ensures Placed(m0, m, i, offset, text, w) && Amount(m, i) < Final(Amount(m0, i), offset, |text|)
    ensures var f := Final(Amount(m0, i), offset, |text|); f > MAX_BLOCKS || FreeBlocks(m0.bitmap) < Needed(Amount(m0, i), f)
  {
    StillSized(m);
    assert Backed(m0, i);
    assert Backed(m, i);
    OthersStayBacked(m0, m, i);
    hide FreeBlocks, Owned, OthersSame, AllBacked, ByteOf, Placed;
    QuotientGrows(offset % BLOCK_SIZE + w, offset % BLOCK_SIZE + |text|);
  }

  lemma QuotientGrows(a: nat, b: nat)
    requires a <= b
    ensures a / BLOCK_SIZE <= b / BLOCK_SIZE
  {
  }

  lemma FinishedWrite(m0: Image, m: Image, i: nat, offset: nat, text: seq<int>, d: int, c: nat, off: nat)
    requires Writing(m0, m, i, offset, text, |text|, d, c, off) && d >= 0 && AllBacked(m0)
    ensures Sized(m)
    ensures var n := Resized(m, i, offset + |text|);
            && Owned(n) && OthersSame(m0, n, i) && n.used == m0.used && AllBacked(n)
            && Placed(m0, n, i, offset, text, |text|) && Amount(n, i) == Final(Amount(m0, i), offset, |text|) <= MAX_BLOCKS
            && FreeBlocks(n.bitmap) == FreeBlocks(m0.bitmap) - Needed(Amount(m0, i), Amount(n, i))
  {
    StillSized(m);
    var n := Resized(m, i, offset + |text|);
    ResizeKeeps(m, i, offset + |text|);
    OthersSameTrans(m0, m, n, i);
    assert Amount(m, i) <= MAX_BLOCKS;
    hide FreeBlocks, Owned, ByteOf;
    CursorIsDest(Amount(m, i), Amount(m0, i), offset, |text|, c, off);
    EndIsBelow(Amount(m0, i), offset, |text|);
    assert Backed(n, i);
    OthersStayBacked(m0, n, i);
  }

  lemma EndIsBelow(before: nat, offset: nat, n: nat)
    ensures offset + n <= Dest(before, offset, n)
  {
    assert offset == offset / BLOCK_SIZE * BLOCK_SIZE + offset % BLOCK_SIZE;
  }

  /** A write that starts in the last block is in one piece: what was before it, and the text. */
  lemma PlacedInPlace(m0: Image, m: Image, i: nat, offset: nat, text: seq<int>, w: nat)
    requires Placed(m0, m, i, offset, text, w) && InLastBlock(m0, i, offset) && Backed(m0, i)
    ensures forall k: nat | k < offset :: ByteOf(m, i, k) == ByteOf(m0, i, k)
    ensures forall k: nat | k < w :: ByteOf(m, i, offset + k) == text[k]
    ensures Final(Amount(m0, i), offset, |text|) == (offset + |text|) / BLOCK_SIZE + 1
  {
    var b, s := offset / BLOCK_SIZE, offset % BLOCK_SIZE + |text|;
    WriteIsInOnePieceExactly(m0, i, offset, w);
    assert offset + |text| == b * BLOCK_SIZE + s;
    BlockOfByte(offset + |text|, b + s / BLOCK_SIZE, s % BLOCK_SIZE);
    hide ByteOf;
    forall k: nat | k < w
      ensures ByteOf(m, i, offset + k) == text[k]
    {
      assert Dest(Amount(m0, i), offset, k) == offset + k;
    }
  }

  // ---------------------------------------------------------------- giving blocks back

  lemma {:induction false} FreeBlocksAfterClear(bitmap: seq<bool>, d: nat)
    requires d < |bitmap| && bitmap[d]
    ensures FreeBlocks(bitmap[d := false]) == FreeBlocks(bitmap) + 1
  {
    FreeBlocksAfterMark(bitmap[d := false], d);
    assert bitmap[d := false][d := true] == bitmap;
  }

  /** One turn of deallocate_blocks_from_inode. */
  function DropLast(m: Image, i: nat, d: int): Image
    requires Sized(m) && i < NINODES && Amount(m, i) > 0 && IsBlock(d)
  {
    var f := m.inodes[i];
    SetInode(m.(bitmap := m.bitmap[d := false]), i, Inode(f.size, f.direct, f.table, f.amount - 1))
  }

  lemma DropLastKeeps(m: Image, i: nat)
    requires Owned(m) && i < NINODES && m.used[i] && Amount(m, i) > 0
    ensures IsBlock(Number(m, i, Amount(m, i) - 1))
    ensures var n := DropLast(m, i, Number(m, i, Amount(m, i) - 1));
            && Owned(n) && OthersSame(m, n, i) && n.used == m.used && n.data == m.data
            && Amount(n, i) == Amount(m, i) - 1 && Size(n, i) == Size(m, i)
            && (forall c: nat | c < Amount(n, i) :: Number(n, i, c) == Number(m, i, c))
            && FreeBlocks(n.bitmap) == FreeBlocks(m.bitmap) + 1
  {
    var b := Amount(m, i) - 1;
    InUseFacts(m, i, b);
    var d := Number(m, i, b);
    var n := DropLast(m, i, d);
    forall j: nat, c: nat | InUse(n, j, c)
      ensures InUse(m, j, c) && Number(n, j, c) == Number(m, j, c) && Number(m, j, c) != d
    {
      assert j != i || c != b;
    }
    FreeBlocksAfterClear(m.bitmap, d);
    hide FreeBlocks;
    forall j: nat | j < NINODES && j != i
      ensures SameFile(m, n, j)
    {
    }
  }

  /** Blocks enough for `size` bytes. */
  function Ceil(size: nat): nat {
    size / BLOCK_SIZE + if size % BLOCK_SIZE != 0 then 1 else 0
  }

  lemma CeilIsEnough(size: nat)
    ensures size <= Ceil(size) * BLOCK_SIZE && Ceil(size) <= size / BLOCK_SIZE + 1
  {
  }

  /** The byte at `off` from the start of data block `d`; at BLOCK_SIZE that is the next block's, or
      `beyond`, whatever follows the array of blocks. */
  function FlatByte(m: Image, d: int, off: nat, beyond: int): int {
    if off < BLOCK_SIZE then ByteIn(m, d, off)
    else if d + 1 < NBLOCKS then ByteIn(m, d + 1, off - BLOCK_SIZE)
    else beyond
  }

  function Min(a: nat, b: nat): nat {
    if a < b then a else b
  }

  ghost predicate Appends(m: Image, n: Image, i: nat, text: seq<int>, r: int) {
    && (forall k: nat | k < Size(m, i) :: ByteOf(n, i, k) == ByteOf(m, i, k))
    && if r >= 0 then
         Size(n, i) == Size(m, i) + |text| && Tight(n, i) && forall k: nat | k < |text| :: ByteOf(n, i, Size(m, i) + k) == text[k]
       else (r == ENOMEM || r == ENOSPC) && Size(n, i) == Size(m, i)
  }

  lemma AppendResult(m: Image, n: Image, i: nat, text: seq<int>, r: int)
    requires Appends(m, n, i, text, r)
    ensures if r >= 0 then Size(n, i) == Size(m, i) + |text| && Tight(n, i) else r == ENOMEM || r == ENOSPC
  {
  }

  /** The old bytes, and zeros in what has been added of the first KiB of the growth to `size`. */
  ghost predicate ZerosAfter(m0: Image, m: Image, i: nat, size: nat) {
    && (forall k: nat | k < Size(m0, i) :: ByteOf(m, i, k) == ByteOf(m0, i, k))
    && (forall k: nat | Size(m0, i) <= k < Size(m, i) && k < size && k < Size(m0, i) + KIB :: ByteOf(m, i, k) == 0)
  }

  lemma AppendKeepsZeros(m0: Image, m: Image, n: Image, i: nat, size: nat, text: seq<int>, r: int)
    requires ZerosAfter(m0, m, i, size) && Appends(m, n, i, text, r) && Size(m0, i) <= Size(m, i)
    requires Size(m, i) == Size(m0, i) || Size(m, i) >= size
    requires Size(m, i) == Size(m0, i) ==> forall k: nat | k < |text| && k < KIB :: text[k] == 0
    ensures ZerosAfter(m0, n, i, size)
  {
    hide ByteOf, Tight;
    forall k: nat | Size(m0, i) <= k < Size(n, i) && k < size && k < Size(m0, i) + KIB
      ensures ByteOf(n, i, k) == 0
    {
      if k >= Size(m, i) {
        var o: nat := k - Size(m, i);
        assert ByteOf(n, i, Size(m, i) + o) == text[o];
      }
    }
  }

  /** What fill_with_null_bytes writes to grow a file by `growth`: all that is missing, and then all
      but 1 KiB of it again, and again. */
  function Filled(growth: nat): (n: nat)
    ensures n >= growth
  {
    if growth <= KIB then growth else growth + Filled(growth - KIB)
  }

  /** truncate reaches the size it was asked for exactly when it grows by at most 1 KiB. */
  lemma GrowthIsRightExactly(growth: nat)
    ensures Filled(growth) == growth <==> growth <= KIB
  {
  }

  /** `m` is `m0` after `done` bytes have been appended to file `i`. */
  predicate Lengthened(m0: Image, m: Image, i: nat, done: nat) {
    && Size(m, i) == Size(m0, i) + done
    && Amount(m, i) == (if done == 0 then Amount(m0, i) else Final(Amount(m0, i), Size(m0, i), done))
    && FreeBlocks(m.bitmap) == FreeBlocks(m0.bitmap) - Needed(Amount(m0, i), Amount(m, i))
  }

  /** Two appends need what one of both texts needs. */
  lemma LengthenMore(m0: Image, m: Image, n: Image, i: nat, done: nat, len: nat, more: nat)
    requires Lengthened(m0, m, i, done) && len > 0
    ensures !Fits(m, i, Size(m, i), len) ==> !Fits(m0, i, Size(m0, i), done + len + more)
    ensures Fits(m, i, Size(m, i), len) && Lengthened(m, n, i, len) ==>
              Fits(m0, i, Size(m0, i), done + len) && Lengthened(m0, n, i, done + len)
  {
    hide FreeBlocks, Size, Amount;
    assert Final(Amount(m, i), Size(m, i), len) == Final(Amount(m0, i), Size(m0, i), done + len);
  }

  /** What an append does. */
  ghost predicate Appended(m: Image, n: Image, i: nat, text: seq<int>, r: int) {
    && OthersSame(m, n, i) && n.used == m.used
    && (r >= 0 <==> Fits(m, i, Size(m, i), |text|)) && (r == ENOMEM <==> (Size(m, i) + |text|) / BLOCK_SIZE >= MAX_BLOCKS)
    && (if r >= 0 then Size(n, i) == Size(m, i) + |text| && (|text| > 0 ==> Lengthened(m, n, i, |text|))
        else (r == ENOMEM || r == ENOSPC) && Size(n, i) == Size(m, i))
    && (Tight(m, i) ==> Appends(m, n, i, text, r))
  }

  /** `m` is `m0` in the middle of fill_with_null_bytes. */
  ghost predicate Filling(m0: Image, m: Image, i: nat, size: nat, missing: int, done: nat) {
    && OthersSame(m0, m, i) && m.used == m0.used && i < |m.used| && m.used[i]
    && Size(m0, i) < size && 0 <= missing <= size - Size(m0, i)
    && Lengthened(m0, m, i, done) && done + Filled(missing) == Filled(size - Size(m0, i))
    && (if done == 0 then missing == size - Size(m0, i) else done >= size - Size(m0, i) && Fits(m0, i, Size(m0, i), done))
    && (Tight(m0, i) ==> Tight(m, i) && ZerosAfter(m0, m, i, size))
  }

  lemma FillStep(m0: Image, m: Image, n: Image, i: nat, size: nat, missing: nat, done: nat, text: seq<int>, r: int)
    requires Filling(m0, m, i, size, missing, done) && Appended(m, n, i, text, r) && |text| == missing > 0
    requires forall k: nat | k < missing && k < KIB :: text[k] == 0
    ensures if r >= 0 then Filling(m0, n, i, size, if missing < KIB then 0 else missing - KIB, done + missing)
            else && OthersSame(m0, n, i) && n.used == m0.used && (r == ENOMEM || r == ENOSPC)
                 && !Fits(m0, i, Size(m0, i), Filled(size - Size(m0, i))) && (Tight(m0, i) ==> ZerosAfter(m0, n, i, size))
                 && (r == ENOMEM && size - Size(m0, i) <= KIB ==> size / BLOCK_SIZE >= MAX_BLOCKS)
  {
    hide OthersSame, Fits, Lengthened, Tight, ZerosAfter, Appends, Size, Amount;
    OthersSameTrans(m0, m, n, i);
    LengthenMore(m0, m, n, i, done, missing, Filled(missing) - missing);
    FillKeeps(m0, m, n, i, size, missing, done, text, r);
    LengthenedSize(m0, m, i, done);
  }

  lemma LengthenedSize(m0: Image, m: Image, i: nat, done: nat)
    requires Lengthened(m0, m, i, done)
    ensures Size(m, i) == Size(m0, i) + done
  {
  }

  lemma FillKeeps(m0: Image, m: Image, n: Image, i: nat, size: nat, missing: nat, done: nat, text: seq<int>, r: int)
    requires Filling(m0, m, i, size, missing, done) && Appended(m, n, i, text, r) && |text| == missing > 0
    requires forall k: nat | k < missing && k < KIB :: text[k] == 0
    ensures Tight(m0, i) ==> ZerosAfter(m0, n, i, size) && (r >= 0 ==> Tight(n, i))
  {
    hide OthersSame, Fits, Tight, ZerosAfter, Appends, Final, Needed, FreeBlocks;
    if Tight(m0, i) {
      AppendKeepsZeros(m0, m, n, i, size, text, r);
      AppendResult(m, n, i, text, r);
    }
  }

  lemma FillEnds(m0: Image, m: Image, i: nat, size: nat, done: nat)
    requires Filling(m0, m, i, size, 0, done)
    ensures OthersSame(m0, m, i) && m.used == m0.used && Lengthened(m0, m, i, Filled(size - Size(m0, i)))
    ensures Fits(m0, i, Size(m0, i), Filled(size - Size(m0, i))) && (Tight(m0, i) ==> ZerosAfter(m0, m, i, size) && Tight(m, i))
  {
  }

  /** Where fiuba_read takes byte `k` from: how many blocks on, and where in that block. */
  function Late(offset: nat, k: nat): (nat, nat) {
    ((offset % BLOCK_SIZE + k) / (BLOCK_SIZE + 1), (offset % BLOCK_SIZE + k) % (BLOCK_SIZE + 1))
  }

  lemma LateIs(offset: nat, k: nat, c: nat, off: nat)
    requires offset % BLOCK_SIZE + k == c * (BLOCK_SIZE + 1) + off && off <= BLOCK_SIZE
    ensures Late(offset, k) == (c, off)
  {
  }

  /** The bytes fiuba_read has put into its buffer. */
  ghost predicate Taken(m: Image, i: nat, offset: nat, buffer: seq<int>, beyond: int) {
    forall k: nat | k < |buffer| ::
      buffer[k] == FlatByte(m, Number(m, i, offset / BLOCK_SIZE + Late(offset, k).0), Late(offset, k).1, beyond)
  }

  lemma TakeOne(m: Image, i: nat, offset: nat, buffer: seq<int>, v: int, beyond: int)
    requires Taken(m, i, offset, buffer, beyond)
    requires var (c, off) := Late(offset, |buffer|); v == FlatByte(m, Number(m, i, offset / BLOCK_SIZE + c), off, beyond)
    ensures Taken(m, i, offset, buffer + [v], beyond)
  {
    hide FlatByte, Number, Late;
  }

  /** Where on the disk fiuba_read looks for byte `k`, counted from the first data block. */
  function ReadPlace(m: Image, i: nat, offset: nat, k: nat): int {
    Number(m, i, offset / BLOCK_SIZE + Late(offset, k).0) * BLOCK_SIZE + Late(offset, k).1
  }

  /** Where a byte of a file is. */
  function BytePlace(m: Image, i: nat, k: nat): int {
    Number(m, i, k / BLOCK_SIZE) * BLOCK_SIZE + k % BLOCK_SIZE
  }

  /** Reading is right exactly up to the end of the block it starts in, and for one byte more where
      the file's next block is the next one on the disk. */
  lemma ReadIsRightExactly(m: Image, i: nat, offset: nat, k: nat, beyond: int)
    requires Owned(m) && i < NINODES && m.used[i] && Backed(m, i) && offset + k < Size(m, i)
    ensures var b, s := offset / BLOCK_SIZE, offset % BLOCK_SIZE + k;
            ReadPlace(m, i, offset, k) == BytePlace(m, i, offset + k) <==>
              s < BLOCK_SIZE || (s == BLOCK_SIZE && Number(m, i, b + 1) == Number(m, i, b) + 1)
    ensures ReadPlace(m, i, offset, k) == BytePlace(m, i, offset + k) ==>
              FlatByte(m, Number(m, i, offset / BLOCK_SIZE + Late(offset, k).0), Late(offset, k).1, beyond) == ByteOf(m, i, offset + k)
  {
    hide Number;
    var b, s := offset / BLOCK_SIZE, offset % BLOCK_SIZE + k;
    var c, o := s / (BLOCK_SIZE + 1), s % (BLOCK_SIZE + 1);
    assert offset + k == b * BLOCK_SIZE + s && s == c * (BLOCK_SIZE + 1) + o;
    LateIs(offset, k, c, o);
    assert Amount(m, i) <= MAX_BLOCKS && c < MAX_BLOCKS;
    ByteIsBacked(offset + k, Amount(m, i));
    InUseFacts(m, i, (offset + k) / BLOCK_SIZE);
    hide Owned;
    if c + o < BLOCK_SIZE {
      BlockOfByte(offset + k, b + c, c + o);
    } else {
      BlockOfByte(offset + k, b + c + 1, c + o - BLOCK_SIZE);
    }
  }

  /** What is read where a write in the middle of a file was to put its text: the text up to the
      end of the first block, then the old bytes as far as the file had blocks, and behind them the
      rest of the text, as much too late as there were blocks in between.  So it is with appends, too,
      when one that ran out of space has left blocks the size does not explain. */
  lemma EarlyWriteIsLost(m0: Image, m: Image, i: nat, offset: nat, text: seq<int>, k: nat)
    requires Placed(m0, m, i, offset, text, |text|) && Amount(m0, i) > offset / BLOCK_SIZE && k < |text|
    ensures var late, end := (Amount(m0, i) - offset / BLOCK_SIZE - 1) * BLOCK_SIZE, Amount(m0, i) * BLOCK_SIZE;
            if offset % BLOCK_SIZE + k < BLOCK_SIZE then ByteOf(m, i, offset + k) == text[k]
            else if offset + k < end then ByteOf(m, i, offset + k) == ByteOf(m0, i, offset + k)
            else k >= late && ByteOf(m, i, offset + k) == text[k - late]
  {
    var b := offset / BLOCK_SIZE;
    assert offset == b * BLOCK_SIZE + offset % BLOCK_SIZE;
    if offset % BLOCK_SIZE + k < BLOCK_SIZE {
      assert Dest(Amount(m0, i), offset, k) == offset + k;
    } else if offset + k < Amount(m0, i) * BLOCK_SIZE {
      assert (offset + k) / BLOCK_SIZE != b;
    } else {
      var o: nat := k - (Amount(m0, i) - b - 1) * BLOCK_SIZE;
      assert Dest(Amount(m0, i), offset, o) == offset + k;
    }
  }

  class Disk {
    var bitmap: seq<bool>       // DATA_BITMAP
    var data: seq<Block>        // DATA_BLOCKS
    var inodes: seq<Inode>      // INODE_BLOCKS
    var used: seq<bool>         // INODE_BITMAP

    ghost function Img(): Image
      reads this
    {
      Image(bitmap, data, inodes, used)
    }

    ghost predicate Valid()
      reads this
    {
      Owned(Img()) && AllBacked(Img())
    }

    /** init_superblock and init_bitmaps over zeroed memory; inode 0 means "no entry" and inode 1
        is the root directory, whose two entries are written by init_root_inode. */
    constructor ()
      ensures Valid() && FreeBlocks(bitmap) == NBLOCKS
      ensures forall i: nat | i < NINODES :: used[i] == (i < 2) && Size(Img(), i) == 0 && Amount(Img(), i) == 0
    {
      bitmap := seq(NBLOCKS, _ => false);
      data := seq(NBLOCKS, _ => Block(seq(BLOCK_SIZE, _ => 0), seq(NTABLE, _ => 0)));
      inodes := seq(NINODES, _ => Inode(0, seq(NDIRECT, _ => 0), 0, 0));
      used := seq(NINODES, (i: int) => i < 2);
      new;
      AllFree(bitmap);
    }

    /** search_free_block. */
    method SearchFreeBlock() returns (d: int)
      requires |bitmap| == NBLOCKS
      modifies `bitmap
      ensures d < 0 ==> d == ENOSPC && bitmap == old(bitmap) && FreeBlocks(bitmap) == 0
      ensures d >= 0 ==> IsBlock(d) && !old(bitmap)[d] && (forall j: nat | j < d :: old(bitmap)[j]) && bitmap == old(bitmap)[d := true]
                         && FreeBlocks(bitmap) == FreeBlocks(old(bitmap)) - 1
    {
      var i := 0;
      while i < NBLOCKS
        invariant i <= NBLOCKS && forall j: nat | j < i :: bitmap[j]
      {
        if !bitmap[i] {
          FreeBlocksAfterMark(bitmap, i);
          bitmap := bitmap[i := true];
          return i;
        }
        i := i + 1;
      }
      NoneFree(bitmap);
      d := ENOSPC;
    }

    /** allocate_new_block: the new block's number, or -1 for NULL. */
    method AllocateNewBlock(i: nat) returns (d: int)
      requires Owned(Img()) && i < NINODES && used[i]
      modifies `bitmap, `data, `inodes
      ensures Owned(Img())
      ensures d >= 0 ==> Grown(old(Img()), Img(), i, d) && FreeBlocks(bitmap) == FreeBlocks(old(bitmap)) - Needed(old(Amount(Img(), i)), old(Amount(Img(), i)) + 1)
      ensures d < 0 ==> Img() == old(Img())
      ensures d < 0 <==> old(Amount(Img(), i)) >= MAX_BLOCKS || FreeBlocks(old(bitmap)) < Needed(old(Amount(Img(), i)), old(Amount(Img(), i)) + 1)
    {
      ghost var m := Img();
      assert Sized(m);
      hide Owned, Grown, FreeBlocks;
      if inodes[i].amount >= MAX_BLOCKS {
        return -1;
      }
      d := SearchFreeBlock();
      if d < 0 {
        return -1;
      }
      if inodes[i].amount < NDIRECT {
        DirectGrows(m, i, d);
        var f := inodes[i];
        inodes := inodes[i := Inode(f.size, f.direct[f.amount := d], f.table, f.amount + 1)];
        assert Img() == AddDirect(m, i, d);
        GrownIsOwned(m, Img(), i, d);
      } else {
        d := AllocateIndirectBlock(i, d, m);
      }
    }

    lemma GrownIsOwned(m: Image, n: Image, i: nat, d: int)
      requires Grown(m, n, i, d)
      ensures Owned(n)
    {
    }

    /** Its last lines. */
    method PutInTable(i: nat, d: nat, ghost m: Image)
      requires Sized(m) && Img() == Mark(m, d) && i < NINODES && NDIRECT <= Amount(m, i) < MAX_BLOCKS && IsBlock(m.inodes[i].table)
      requires IsBlock(d)
      modifies `data, `inodes
      ensures Img() == AddIndirect(m, i, d)
    {
      var f := inodes[i];
      data := data[f.table := WithInt(data[f.table], f.amount - NDIRECT, d)];
      inodes := inodes[i := Inode(f.size, f.direct, f.table, f.amount + 1)];
    }

    /** allocate_indirect_block, `d` being marked already; `m` is the disk before that. */
    method AllocateIndirectBlock(i: nat, d: nat, ghost m: Image) returns (r: int)
      requires Owned(m) && i < NINODES && m.used[i] && NDIRECT <= Amount(m, i) < MAX_BLOCKS && IsBlock(d) && !Marked(m, d)
      requires Img() == Mark(m, d) && FreeBlocks(bitmap) == FreeBlocks(m.bitmap) - 1
      modifies `bitmap, `data, `inodes
      ensures r >= 0 ==> r == d && Grown(m, Img(), i, d)
                         && FreeBlocks(bitmap) == FreeBlocks(m.bitmap) - if Amount(m, i) == NDIRECT then 2 else 1
      ensures r < 0 ==> Img() == m
      ensures r < 0 <==> Amount(m, i) == NDIRECT && FreeBlocks(m.bitmap) < 2
    {
      assert Sized(m);
      hide Owned, Grown, FreeBlocks, OthersSame, TableFor, Number, Sized;
      ghost var m1 := m;
      var f := inodes[i];
      if f.amount == NDIRECT {
        var t := SearchFreeBlock();
        if t < 0 {
          bitmap := bitmap[d := false];
          assert bitmap == m.bitmap;
          return -1;
        }
        TakeTableKeeps(m, i, t);
        m1 := TakeTable(m, i, t);
        f := Inode(f.size, f.direct, t, f.amount);
        inodes := inodes[i := f];
        assert bitmap == m1.bitmap[d := true];
      } else {
        TableIsFor(m, i);
        NothingChanges(m, i);
      }
      assert Sized(m1) && TableFor(m1, i, f.table) && Owned(m1) && !Marked(m1, d) by {
        StillSized(m1);
      }
      IndirectGrows(m1, i, d);
      PutInTable(i, d, m1);
      GrownAfterTable(m, m1, Img(), i, d);
      r := d;
    }

    lemma TableIsFor(m: Image, i: nat)
      requires Owned(m) && i < NINODES && m.used[i] && NDIRECT < Amount(m, i)
      ensures TableFor(m, i, m.inodes[i].table)
    {
      assert InUse(m, i, TABLE) && Number(m, i, TABLE) == m.inodes[i].table;
    }

    /** Taking the table first, or having it, makes no difference to what has grown. */
    lemma GrownAfterTable(m: Image, m1: Image, n: Image, i: nat, d: int)
      requires Grown(m1, n, i, d) && OthersSame(m, m1, i) && m1.used == m.used && m1.data == m.data
      requires Amount(m1, i) == Amount(m, i) && Size(m1, i) == Size(m, i)
      requires forall c: nat | c < Amount(m, i) :: Number(m1, i, c) == Number(m, i, c)
      ensures Grown(m, n, i, d)
    {
      OthersSameTrans(m, m1, n, i);
    }

    /** get_inode_block: -1 for NULL. */
    function GetInodeBlock(i: nat, b: nat): (d: int)
      requires Valid() && i < NINODES && used[i]
      reads this
      ensures b < Amount(Img(), i) ==> d == Number(Img(), i, b) >= 0
      ensures b >= Amount(Img(), i) ==> d == -1
    {
      if inodes[i].amount <= b then -1
      else
        InUseFacts(Img(), i, b);
        if b >= NDIRECT then
          TableIsFor(Img(), i);
          data[inodes[i].table].ints[b - NDIRECT]
        else inodes[i].direct[b]
    }

    /** The loop of fiuba_write, from block `d`. */
    method WriteLoop(i: nat, text: seq<int>, ghost offset: nat, first: int, start: nat, ghost b: nat, ghost m0: Image)
      returns (d: int, ghost c: nat, ghost off: nat, ghost w: nat)
      requires first >= 0 && Writing(m0, Img(), i, offset, text, 0, first, b, start)
      modifies `bitmap, `data, `inodes
      ensures Writing(m0, Img(), i, offset, text, w, d, c, off)
      ensures d >= 0 ==> w == |text|
      ensures d < 0 ==> NoRoom(Img(), i)
    {
      hide Writing, Grown, FreeBlocks, Owned;
      d, c, off, w := first, b, start, 0;
      var written, curr := 0, start;
      while written < |text| && d >= 0
        invariant w == written <= |text| && off == curr
        invariant Writing(m0, Img(), i, offset, text, written, d, c, curr)
        invariant d < 0 ==> NoRoom(Img(), i)
        decreases |text| - written, d
      {
        ghost var m := Img();
        PutStep(m0, m, i, offset, text, written, d, c, curr);
        data := data[d := WithByte(data[d], curr, text[written])];
        assert Img() == PutByte(m, d, curr, text[written]);
        curr := curr + 1;
        written := written + 1;
        if curr >= BLOCK_SIZE {
          curr := 0;
          d, c := NextBlock(i, text, offset, written, c, m0);
        }
        off, w := curr, written;
      }
    }

    lemma WritingFacts(m0: Image, m: Image, i: nat, offset: nat, text: seq<int>, w: nat, d: int, c: nat, off: nat)
      requires Writing(m0, m, i, offset, text, w, d, c, off)
      ensures Owned(m) && Sized(m) && i < NINODES && m.used[i] && Amount(m0, i) <= Amount(m, i)
    {
      StillSized(m);
    }

    /** `data_block = allocate_new_block(inode)` inside the loop. */
    method NextBlock(i: nat, ghost text: seq<int>, ghost offset: nat, ghost w: nat, ghost c: nat, ghost m0: Image)
      returns (d: int, ghost next: nat)
      requires Writing(m0, Img(), i, offset, text, w, -1, c, 0)
      modifies `bitmap, `data, `inodes
      ensures Writing(m0, Img(), i, offset, text, w, d, next, 0)
      ensures d < 0 ==> NoRoom(Img(), i)
    {
      hide Writing, Grown, FreeBlocks, Owned;
      ghost var m := Img();
      next := c;
      WritingFacts(m0, m, i, offset, text, w, -1, c, 0);
      d := AllocateNewBlock(i);
      if d >= 0 {
        next := Amount(m, i);
        GrowStep(m0, m, Img(), i, offset, text, w, c, d);
      } else {
        NullBlock(m0, m, i, offset, text, w, d, c);
      }
    }

    /** Any negative number is NULL. */
    lemma NullBlock(m0: Image, m: Image, i: nat, offset: nat, text: seq<int>, w: nat, d: int, c: nat)
      requires Writing(m0, m, i, offset, text, w, -1, c, 0) && d < 0
      ensures Writing(m0, m, i, offset, text, w, d, c, 0)
    {
    }

    /** fiuba_write. */
    method Write(i: nat, text: seq<int>, offset: nat) returns (r: int, ghost w: nat)
      requires Valid() && i < NINODES && used[i]
      modifies `bitmap, `data, `inodes
      ensures Valid() && OthersSame(old(Img()), Img(), i) && used == old(used)
      ensures r == EINVAL <==> old(Size(Img(), i)) < offset
      ensures r == ENOMEM <==> offset <= old(Size(Img(), i)) && (offset + |text|) / BLOCK_SIZE >= MAX_BLOCKS
      ensures r < 0 ==> r == EINVAL || r == ENOMEM || r == ENOSPC
      ensures r == EINVAL || r == ENOMEM ==> Img() == old(Img())
      ensures Placed(old(Img()), Img(), i, offset, text, w)
      ensures if r >= 0 then r == w == |text| && Size(Img(), i) == offset + |text| else Size(Img(), i) == old(Size(Img(), i))
      ensures offset <= old(Size(Img(), i)) ==> (r >= 0 <==> old(Fits(Img(), i, offset, |text|)))
      ensures r != EINVAL && r != ENOMEM ==>
                var before, after := old(Amount(Img(), i)), Final(old(Amount(Img(), i)), offset, |text|);
                && (if r >= 0 then Amount(Img(), i) == after && FreeBlocks(bitmap) == FreeBlocks(old(bitmap)) - Needed(before, after)
                    else Amount(Img(), i) < after)
    {
      ghost var m0 := Img();
      assert Owned(m0) && Sized(m0) && Backed(m0, i);
      hide Owned, Writing, Grown, FreeBlocks, OthersSame, AllBacked;
      NothingChanges(m0, i);
      w := 0;
      assert Placed(m0, m0, i, offset, text, 0);
      hide Placed;
      if inodes[i].size < offset {
        r := EINVAL;
        return;
      }
      CalcLastIsEndBlock(offset, |text|);
      var idx, start := offset / BLOCK_SIZE, offset % BLOCK_SIZE;
      if CalcLast(idx, start, |text|) >= MAX_BLOCKS {
        r := ENOMEM;
        return;
      }
      var d := GetInodeBlock(i, idx);
      ghost var b := idx;
      if d < 0 {
        FirstBlockIsNext(m0, i, offset, text);
        d, b := NextBlock(i, text, offset, 0, idx, m0);
        if d < 0 {
          FailedWrite(m0, Img(), i, offset, text, 0, d, b, 0);
          r := ENOSPC;
          return;
        }
      } else {
        FirstBlockIsThere(m0, i, offset, text);
      }
      ghost var c, off;
      d, c, off, w := WriteLoop(i, text, offset, d, start, b, m0);
      if d < 0 {
        FailedWrite(m0, Img(), i, offset, text, w, d, c, off);
        r := ENOSPC;
        return;
      }
      FinishedWrite(m0, Img(), i, offset, text, d, c, off);
      var f := inodes[i];
      inodes := inodes[i := Inode(offset + |text|, f.direct, f.table, f.amount)];
      r := |text|;
    }

    /** deallocate_blocks_from_inode.  The block of an indirect table is never given back. */
    method DeallocateBlocks(i: nat, n: nat)
      requires Owned(Img()) && i < NINODES && used[i]
      modifies `bitmap, `inodes
      ensures Owned(Img()) && OthersSame(old(Img()), Img(), i) && Size(Img(), i) == old(Size(Img(), i))
      ensures Amount(Img(), i) == Min(old(Amount(Img(), i)), n)
      ensures forall c: nat | c < Amount(Img(), i) :: Number(Img(), i, c) == old(Number(Img(), i, c))
      ensures FreeBlocks(bitmap) == FreeBlocks(old(bitmap)) + (old(Amount(Img(), i)) - Amount(Img(), i))
    {
      hide Owned, OthersSame, FreeBlocks;
      ghost var m0 := Img();
      StillSized(m0);
      NothingChanges(m0, i);
      while inodes[i].amount > n
        invariant Owned(Img()) && Sized(Img()) && OthersSame(m0, Img(), i) && Size(Img(), i) == Size(m0, i)
        invariant Min(Amount(m0, i), n) <= Amount(Img(), i) <= Amount(m0, i)
        invariant forall c: nat | c < Amount(Img(), i) :: Number(Img(), i, c) == Number(m0, i, c)
        invariant FreeBlocks(bitmap) == FreeBlocks(m0.bitmap) + (Amount(m0, i) - Amount(Img(), i))
        decreases inodes[i].amount
      {
        ghost var m := Img();
        DropLastKeeps(m, i);
        var f := inodes[i];
        var d := GetInodeBlockN(i, f.amount - 1);
        bitmap := bitmap[d := false];
        inodes := inodes[i := Inode(f.size, f.direct, f.table, f.amount - 1)];
        assert Img() == DropLast(m, i, d);
        OthersSameTrans(m0, m, Img(), i);
        StillSized(Img());
      }
    }

    /** get_inode_block_n, for a block the file has. */
    function GetInodeBlockN(i: nat, b: nat): (d: nat)
      requires Owned(Img()) && i < NINODES && used[i] && b < Amount(Img(), i)
      reads this
      ensures d == Number(Img(), i, b)
    {
      InUseFacts(Img(), i, b);
      if b >= NDIRECT then
        TableIsFor(Img(), i);
        data[inodes[i].table].ints[b - NDIRECT]
      else inodes[i].direct[b]
    }

    /** The part of truncate_inode that shrinks a file. */
    method Truncate(i: nat, size: nat)
      requires Valid() && i < NINODES && used[i] && size <= Size(Img(), i)
      modifies `bitmap, `inodes
      ensures Valid() && OthersSame(old(Img()), Img(), i)
      ensures Size(Img(), i) == size && forall k: nat | k < size :: ByteOf(Img(), i, k) == old(ByteOf(Img(), i, k))
      ensures Tight(Img(), i) && Amount(Img(), i) == Min(old(Amount(Img(), i)), Ceil(size))
      ensures FreeBlocks(bitmap) == FreeBlocks(old(bitmap)) + (old(Amount(Img(), i)) - Amount(Img(), i))
    {
      hide Owned, OthersSame, FreeBlocks, AllBacked;
      ghost var m0 := Img();
      StillSized(m0);
      FileIsBacked(m0, i);
      var n := size / BLOCK_SIZE;
      n := n + if size % BLOCK_SIZE != 0 then 1 else 0;
      CeilIsEnough(size);
      DeallocateBlocks(i, n);
      ghost var m := Img();
      StillSized(m);
      ResizeKeeps(m, i, size);
      var f := inodes[i];
      inodes := inodes[i := Inode(size, f.direct, f.table, f.amount)];
      OthersSameTrans(m0, m, Img(), i);
      assert Backed(Img(), i);
      OthersStayBacked(m0, Img(), i);
      forall k: nat | k < size
        ensures ByteOf(Img(), i, k) == ByteOf(m0, i, k)
      {
        ByteIsBacked(k, Amount(m, i));
      }
    }

    /** fiuba_write at the end of a file. */
    method Append(i: nat, text: seq<int>) returns (r: int)
      requires Valid() && i < NINODES && used[i]
      modifies `bitmap, `data, `inodes
      ensures Valid() && Appended(old(Img()), Img(), i, text, r)
    {
      ghost var m := Img();
      StillSized(m);
      hide Owned, OthersSame, AllBacked, FreeBlocks;
      ghost var w;
      r, w := Write(i, text, inodes[i].size);
      FileIsBacked(m, i);
      if Tight(m, i) {
        PlacedInPlace(m, Img(), i, Size(m, i), text, w);
      }
    }

    lemma FillStarts(i: nat, size: nat)
      requires Valid() && i < NINODES && used[i] && Size(Img(), i) < size
      ensures Filling(Img(), Img(), i, size, size - Size(Img(), i), 0)
    {
      StillSized(Img());
      NothingChanges(Img(), i);
    }

    /** fill_with_null_bytes.  The buffer holds 1 KiB of zeros; `beyond` is the memory behind it,
        which is written to the file as well when more is missing. */
    method FillWithNullBytes(i: nat, size: nat, beyond: seq<int>) returns (r: int)
      requires Valid() && i < NINODES && used[i] && Size(Img(), i) < size
      requires size - Size(Img(), i) <= KIB + |beyond|
      modifies `bitmap, `data, `inodes
      ensures Valid() && OthersSame(old(Img()), Img(), i) && used == old(used)
      ensures r == 0 || r == ENOMEM || r == ENOSPC
      ensures r == 0 <==> old(Fits(Img(), i, Size(Img(), i), Filled(size - Size(Img(), i))))
      ensures r == ENOMEM && size - old(Size(Img(), i)) <= KIB ==> size / BLOCK_SIZE >= MAX_BLOCKS
      ensures r == 0 ==> Lengthened(old(Img()), Img(), i, Filled(size - old(Size(Img(), i))))
      ensures old(Tight(Img(), i)) ==> ZerosAfter(old(Img()), Img(), i, size) && (r == 0 ==> Tight(Img(), i))
    {
      hide Owned, OthersSame, AllBacked, Valid, Fits, Lengthened, ZerosAfter, Tight, Filling, Appended, Appends, Filled, FreeBlocks, ByteOf;
      ghost var m0, done: nat := Img(), 0;
      FillStarts(i, size);
      var buffer := seq(KIB, _ => 0) + beyond;
      NumberOfInodes();
      var missing := size - inodes[i].size;
      var step := if missing < KIB then missing else KIB;
      while missing > 0
        invariant Valid() && |inodes| == NINODES && Filling(m0, Img(), i, size, missing, done)
        invariant 0 <= missing <= size - Size(m0, i) && step == (if missing < KIB then missing else KIB)
        decreases missing
      {
        ghost var m := Img();
        r := Append(i, buffer[..missing]);
        FillStep(m0, m, Img(), i, size, missing, done, buffer[..missing], r);
        if r < 0 {
          return;
        }
        done := done + missing;
        NumberOfInodes();
        missing := missing - step;
        if missing < KIB {
          step := missing;
        }
      }
      FillEnds(m0, Img(), i, size, done);
      r := 0;
    }

    lemma NumberOfInodes()
      requires Valid()
      ensures |inodes| == NINODES
    {
      StillSized(Img());
    }

    /** truncate_inode. */
    method TruncateInode(i: nat, size: nat, beyond: seq<int>) returns (r: int)
      requires Valid() && i < NINODES && used[i] && size <= Size(Img(), i) + KIB + |beyond|
      modifies `bitmap, `data, `inodes
      ensures Valid() && OthersSame(old(Img()), Img(), i) && r <= 0
      ensures r == 0 ==> (Size(Img(), i) == size <==> size <= old(Size(Img(), i)) + KIB)
      ensures r == 0 && size <= old(Size(Img(), i)) + KIB && (size <= old(Size(Img(), i)) || old(Tight(Img(), i))) ==>
                forall k: nat | k < size :: ByteOf(Img(), i, k) == if k < old(Size(Img(), i)) then old(ByteOf(Img(), i, k)) else 0
      ensures size <= old(Size(Img(), i)) ==> r == 0
      ensures size > old(Size(Img(), i)) ==> (r == 0 <==> old(Fits(Img(), i, Size(Img(), i), Filled(size - Size(Img(), i)))))
    {
      ghost var total := Size(Img(), i);
      NumberOfInodes();
      hide Owned, OthersSame, AllBacked;
      if inodes[i].size < size {
        GrowthIsRightExactly(size - total);
        r := FillWithNullBytes(i, size, beyond);
      } else {
        Truncate(i, size);
        r := 0;
      }
    }

    lemma FileIsBacked(m: Image, i: nat)
      requires AllBacked(m) && i < |m.used| && m.used[i]
      ensures Backed(m, i)
    {
    }

    /** fiuba_read.  Its test for the end of a block is one byte late: of each block it takes
        BLOCK_SIZE + 1 bytes, the last of them from the next block on the disk, or from `beyond` the
        array when there is none. */
    method Read(i: nat, size: nat, offset: nat, beyond: int) returns (r: int, buffer: seq<int>)
      requires Valid() && i < NINODES && used[i]
      ensures r == EINVAL <==> Size(Img(), i) < offset
      ensures r != EINVAL ==> r == |buffer| == Min(size, Size(Img(), i) - offset)
      ensures Taken(Img(), i, offset, buffer, beyond)
    {
      buffer := [];
      if inodes[i].size < offset {
        return EINVAL, buffer;
      }
      FileIsBacked(Img(), i);
      hide Owned, AllBacked, Valid, FlatByte, Number, Taken;
      var idx: nat, curr: nat := offset / BLOCK_SIZE, offset % BLOCK_SIZE;
      var total := inodes[i].size;
      var d := GetInodeBlock(i, idx);
      ghost var first, start, m := idx, curr, Img();
      while d >= 0 && offset + |buffer| < total && |buffer| < size
        invariant curr <= BLOCK_SIZE && first <= idx && |buffer| <= Min(size, total - offset)
        invariant d == GetInodeBlock(i, idx)
        invariant d < 0 ==> offset + |buffer| >= total
        invariant idx * BLOCK_SIZE + curr <= offset + |buffer| <= idx * BLOCK_SIZE + curr + (idx - first)
        invariant start + |buffer| == (idx - first) * (BLOCK_SIZE + 1) + curr
        invariant Taken(m, i, offset, buffer, beyond)
        decreases total - offset - |buffer|
      {
        LateIs(offset, |buffer|, idx - first, curr);
        TakeOne(m, i, offset, buffer, FlatByteOf(d, curr, beyond), beyond);
        buffer := buffer + [FlatByteOf(d, curr, beyond)];
        curr := curr + 1;
        if curr > BLOCK_SIZE {
          idx := idx + 1;
          d := GetInodeBlock(i, idx);
          curr := 0;
        }
      }
      r := |buffer|;
    }

    /** A byte of the array `blocks`, `off` bytes from the start of a data block. */
    function FlatByteOf(d: int, off: nat, beyond: int): (v: int)
      reads this
      ensures v == FlatByte(Img(), d, off, beyond)
    {
      if off < BLOCK_SIZE then (if 0 <= d < |data| && off < |data[d].bytes| then data[d].bytes[off] else 0)
      else if d + 1 < NBLOCKS then
        (if 0 <= d + 1 < |data| && off - BLOCK_SIZE < |data[d + 1].bytes| then data[d + 1].bytes[off - BLOCK_SIZE] else 0)
      else beyond
    }

    /** search_free_inode and init_inode. */
    method NewInode() returns (i: int)
      requires Valid()
      modifies `inodes, `used
      ensures Valid()
      ensures i < 0 ==> i == ENOMEM && Img() == old(Img()) && forall j: nat | 2 <= j < NINODES :: used[j]
      ensures i >= 0 ==> 2 <= i < NINODES && !old(used)[i] && (forall j: nat | 2 <= j < i :: old(used)[j]) && used == old(used)[i := true]
                         && Size(Img(), i) == 0 && Amount(Img(), i) == 0 && bitmap == old(bitmap) && data == old(data)
                         && forall j: nat | j < NINODES && j != i :: SameFile(old(Img()), Img(), j)
    {
      hide Owned, AllBacked;
      ghost var m := Img();
      StillSized(m);
      var j := 2;
      while j < NINODES
        invariant 2 <= j <= NINODES && Img() == m && forall k: nat | 2 <= k < j :: used[k]
      {
        if !used[j] {
          EmptyFileKeeps(m, j);
          var f := inodes[j];
          used := used[j := true];
          inodes := inodes[j := Inode(0, f.direct, f.table, 0)];
          return j;
        }
        j := j + 1;
      }
      i := ENOMEM;
    }

    /** A file of no blocks can be added or taken away. */
    lemma EmptyFileKeeps(m: Image, i: nat)
      requires Owned(m) && AllBacked(m) && i < NINODES && !m.used[i]
      ensures var f := m.inodes[i];
              var n := Image(m.bitmap, m.data, m.inodes[i := Inode(0, f.direct, f.table, 0)], m.used[i := true]);
              Owned(n) && AllBacked(n) && forall j: nat | j < NINODES && j != i :: SameFile(m, n, j)
    {
      var f := m.inodes[i];
      var n := Image(m.bitmap, m.data, m.inodes[i := Inode(0, f.direct, f.table, 0)], m.used[i := true]);
      forall j: nat, c: nat | InUse(n, j, c)
        ensures InUse(m, j, c) && Number(n, j, c) == Number(m, j, c)
      {
      }
      forall j: nat | j < NINODES && n.used[j]
        ensures Backed(n, j)
      {
        assert j != i ==> Backed(m, j);
      }
    }

    /** deallocate_inode: the last link is gone. */
    method DeallocateInode(i: nat)
      requires Valid() && i < NINODES && used[i]
      modifies `bitmap, `inodes, `used
      ensures Valid() && used == old(used)[i := false]
      ensures forall j: nat | j < NINODES && j != i :: SameFile(old(Img()), Img(), j)
      ensures FreeBlocks(bitmap) == FreeBlocks(old(bitmap)) + old(Amount(Img(), i))
    {
      hide Owned, AllBacked, OthersSame, FreeBlocks;
      ghost var m0 := Img();
      StillSized(m0);
      DeallocateBlocks(i, 0);
      ForgetFile(m0, Img(), i);
      used := used[i := false];
    }

    lemma ForgetFile(m0: Image, m: Image, i: nat)
      requires AllBacked(m0) && Owned(m) && OthersSame(m0, m, i) && i < NINODES && m.used[i] && |m0.used| == NINODES
      ensures var n := Image(m.bitmap, m.data, m.inodes, m.used[i := false]);
              Owned(n) && AllBacked(n) && forall j: nat | j < NINODES && j != i :: SameFile(m0, n, j)
    {
      var n := Image(m.bitmap, m.data, m.inodes, m.used[i := false]);
      assert forall j: nat, c: nat | InUse(n, j, c) :: InUse(m, j, c) && Number(n, j, c) == Number(m, j, c);
      forall j: nat | j < NINODES && j != i
        ensures SameFile(m0, n, j) && (n.used[j] ==> Backed(n, j))
      {
        assert SameFile(m0, m, j);
        assert m0.used[j] ==> Backed(m0, j);
      }
    }
  }
}
