/** Physical pages and two-level page tables, after kern/pmap.c and the parts of
    kern/env.c and kern/syscall.c that create, share and drop mappings.

    Page tables live in physical pages like any other data, so nothing but the invariant
    keeps a user page from being a page table.  `Mem` is a snapshot of the kernel's fields;
    what is proved about reference counts and mappings is proved about snapshots, and each
    method of `Kernel` says how it changes the snapshot. */
module Pmap {
  import opened Common

  // ---------------------------------------------------------------- words

  /** The low twelve bits of an entry. */
  datatype Flag = P | W | U | PWT | PCD | A | D | PS | G | AVAIL0 | AVAIL1 | COW

  /** A 32-bit word read as an entry: page number in the high twenty bits, flags below.  The
      argument `perm` of a system call is such a word too, and need not stop at the flags. */
  datatype Word = Word(frame: nat, flags: set<Flag>)

  const NULL := Word(0, {})

  const PGSIZE: nat := 4096
  const NENTRIES: nat := 1024
  const NPDE: nat := 955          // PDX(UTOP)
  const UVPT: nat := 957          // PDX(UVPT)
  const PTE_SYSCALL: set<Flag> := {AVAIL0, AVAIL1, COW, P, W, U}

  /** Bitwise or of page numbers. */
  function Or(a: nat, b: nat): nat {
    if a == 0 then b
    else if b == 0 then a
    else 2 * Or(a / 2, b / 2) + if a % 2 == 1 || b % 2 == 1 then 1 else 0
  }

  predicate Bit(n: nat, k: nat) {
    if k == 0 then n % 2 == 1 else Bit(n / 2, k - 1)
  }

  lemma OrHalves(a: nat, b: nat)
    ensures Or(a, b) / 2 == Or(a / 2, b / 2) && (Or(a, b) % 2 == 1 <==> a % 2 == 1 || b % 2 == 1)
  {
  }

  /** Bit by bit. */
  lemma {:induction false} OrIsBitwise(a: nat, b: nat, k: nat)
    ensures Bit(Or(a, b), k) <==> Bit(a, k) || Bit(b, k)
    decreases k
  {
    hide Or;
    OrHalves(a, b);
    if k > 0 {
      OrIsBitwise(a / 2, b / 2, k - 1);
    }
  }

  /** `page2pa(pp) | perm | PTE_P`. */
  function Entry(p: nat, perm: Word): Word {
    Word(Or(p, perm.frame), perm.flags + {P})
  }

  const E_OK: int := 0
  const E_INVAL: int := -3
  const E_NO_MEM: int := -4

  // ---------------------------------------------------------------- snapshots

  /** What a page is used for.  Free pages, pages in flight and leaked pages are `Data`. */
  datatype Kind = Reserved | Data | Root(env: nat) | Table(env: nat, pdx: nat)

  datatype Mem = Mem(
    phys: seq<seq<Word>>,      // contents of every physical page
    refs: seq<nat>,            // pp_ref
    pgdir: map<nat, nat>,      // env_pgdir of each live environment
    kind: seq<Kind>)

  /** An entry below UTOP of some environment's address space. */
  datatype Loc = Loc(e: nat, d: nat, t: nat)

  predicate InRange(m: Mem, l: Loc) {
    l.e in m.pgdir && l.d < NPDE && l.t < NENTRIES
  }

  ghost predicate Sized(m: Mem) {
    && |m.refs| == |m.phys| == |m.kind|
    && (forall p | 0 <= p < |m.phys| :: |m.phys[p]| == NENTRIES)
    && (forall e | e in m.pgdir :: m.pgdir[e] < |m.phys|)
  }

  function WordAt(m: Mem, p: nat, i: nat): Word {
    if p < |m.phys| && i < |m.phys[p]| then m.phys[p][i] else NULL
  }

  function Pde(m: Mem, e: nat, d: nat): Word {
    if e in m.pgdir && d < NPDE then WordAt(m, m.pgdir[e], d) else NULL
  }

  /** The page-table entry for `l`, or NULL when there is no page table. */
  function Pte(m: Mem, l: Loc): Word {
    if InRange(m, l) && Pde(m, l.e, l.d) != NULL then WordAt(m, Pde(m, l.e, l.d).frame, l.t) else NULL
  }

  /** Directories and tables form a forest over distinct pages, none of them mapped; every
      nonzero entry is present. */
  ghost predicate Shape(m: Mem) {
    && Sized(m)
    && (forall e | e in m.pgdir :: m.kind[m.pgdir[e]] == Root(e))
    && (forall p | 0 <= p < |m.kind| && m.kind[p].Root? :: m.kind[p].env in m.pgdir && m.pgdir[m.kind[p].env] == p)
    && (forall e, d | e in m.pgdir && 0 <= d < NPDE && Pde(m, e, d) != NULL ::
          {P, W, U} <= Pde(m, e, d).flags && Pde(m, e, d).frame < |m.phys| && m.kind[Pde(m, e, d).frame] == Table(e, d))
    && (forall p | 0 <= p < |m.kind| && m.kind[p].Table? ::
          m.kind[p].env in m.pgdir && m.kind[p].pdx < NPDE &&
          Pde(m, m.kind[p].env, m.kind[p].pdx) != NULL && Pde(m, m.kind[p].env, m.kind[p].pdx).frame == p)
    && (forall p, t | 0 <= p < |m.kind| && m.kind[p].Table? && 0 <= t < NENTRIES && WordAt(m, p, t) != NULL ::
          P in WordAt(m, p, t).flags && WordAt(m, p, t).frame < |m.phys| && m.kind[WordAt(m, p, t).frame].Data?)
  }

  /** The entries that name page `p`. */
  ghost function Mappers(m: Mem, p: nat): (r: set<Loc>)
    ensures forall l :: l in r <==> Pte(m, l) != NULL && Pte(m, l).frame == p
  {
    set e, d, t | e in m.pgdir.Keys && 0 <= d < NPDE && 0 <= t < NENTRIES && Maps(m, Loc(e, d, t), p) :: Loc(e, d, t)
  }

  ghost predicate Maps(m: Mem, l: Loc, p: nat) {
    Pte(m, l) != NULL && Pte(m, l).frame == p
  }

  /** Reference counts, with `extra` naming a page that holds one reference not yet in a table. */
  ghost predicate Counted(m: Mem, extra: Option<nat>)
    requires |m.kind| == |m.refs|
  {
    forall p | 0 <= p < |m.refs| ::
      match m.kind[p]
      case Reserved => true
      case Data => m.refs[p] == |Mappers(m, p)| + if extra == Some(p) then 1 else 0
      case _ => m.refs[p] == 1
  }

  /** `n` is `m` with the entry at `l` replaced by `w`. */
  ghost predicate Updated(m: Mem, n: Mem, l: Loc, w: Word) {
    forall x :: Pte(n, x) == if x == l then w else Pte(m, x)
  }

  lemma OneElementDiffers<T>(a: set<T>, b: set<T>, x: T)
    requires forall y | y != x :: y in a <==> y in b
    ensures |b| == |a| - (if x in a then 1 else 0) + (if x in b then 1 else 0)
  {
    var rest := a - {x};
    assert a == if x in a then rest + {x} else rest;
    assert b == if x in b then rest + {x} else rest;
  }

  /** One update moves one reference, from the page the entry named to the page it names. */
  lemma UpdateMovesOneReference(m: Mem, n: Mem, l: Loc, w: Word, p: nat)
    requires Updated(m, n, l, w)
    ensures |Mappers(n, p)| ==
              |Mappers(m, p)| - (if Pte(m, l) != NULL && Pte(m, l).frame == p then 1 else 0)
              + (if w != NULL && w.frame == p then 1 else 0)
  {
    OneElementDiffers(Mappers(m, p), Mappers(n, p), l);
  }

  function SetWord(m: Mem, p: nat, i: nat, w: Word): Mem {
    if p < |m.phys| && i < |m.phys[p]| then m.(phys := m.phys[p := m.phys[p][i := w]]) else m
  }

  function SetRef(m: Mem, p: nat, n: nat): Mem {
    if p < |m.refs| then m.(refs := m.refs[p := n]) else m
  }

  function SetKind(m: Mem, p: nat, k: Kind): Mem {
    if p < |m.kind| then m.(kind := m.kind[p := k]) else m
  }

  function RefOf(m: Mem, p: nat): nat {
    if p < |m.refs| then m.refs[p] else 0
  }

  function SetPte(m: Mem, l: Loc, w: Word): Mem {
    SetWord(m, Pde(m, l.e, l.d).frame, l.t, w)
  }

  /** Entries that may stand in a page table. */
  predicate Storable(m: Mem, w: Word)
    requires |m.kind| == |m.phys|
  {
    w == NULL || (P in w.flags && w.frame < |m.phys| && m.kind[w.frame].Data?)
  }

  /** Writing one entry, whatever it names, changes the flat address space at exactly one place. */
  lemma SetPteUpdates(m: Mem, l: Loc, w: Word)
    requires Shape(m) && InRange(m, l) && Pde(m, l.e, l.d) != NULL
    ensures Updated(m, SetPte(m, l, w), l, w)
    ensures forall e, d :: Pde(SetPte(m, l, w), e, d) == Pde(m, e, d)
    ensures var t := Pde(m, l.e, l.d).frame;
            && t < |m.phys| && m.kind[t] == Table(l.e, l.d) && |m.phys[t]| == NENTRIES
            && SetPte(m, l, w) == m.(phys := m.phys[t := m.phys[t][l.t := w]])
  {
    var n := SetPte(m, l, w);
    var table := Pde(m, l.e, l.d).frame;
    assert m.kind[table] == Table(l.e, l.d);
    assert forall e, d :: Pde(n, e, d) == Pde(m, e, d);
    assert forall p, t | p != table || t != l.t :: WordAt(n, p, t) == WordAt(m, p, t);
  }

  /** Writing one entry changes the flat address space at exactly one place, and keeps tables and
      directories a forest of unmapped pages. */
  lemma SetPteIsOneUpdate(m: Mem, l: Loc, w: Word)
    requires Shape(m) && InRange(m, l) && Pde(m, l.e, l.d) != NULL && Storable(m, w)
    ensures Shape(SetPte(m, l, w))
    ensures Updated(m, SetPte(m, l, w), l, w)
  {
    SetPteUpdates(m, l, w);
    hide Updated, SetPte, Pte;
    var n := SetPte(m, l, w);
    var table := Pde(m, l.e, l.d).frame;
    assert forall p, t | p != table || t != l.t :: WordAt(n, p, t) == WordAt(m, p, t);
    assert WordAt(n, table, l.t) == w;
  }

  ghost predicate SameAddressSpaces(m: Mem, n: Mem) {
    forall x :: Pte(n, x) == Pte(m, x)
  }

  lemma SameAddressSpacesSameMappers(m: Mem, n: Mem, p: nat)
    requires SameAddressSpaces(m, n)
    ensures Mappers(m, p) == Mappers(n, p)
  {
  }

  lemma SameAddressSpacesSameCounts(m: Mem, n: Mem, extra: Option<nat>)
    requires SameAddressSpaces(m, n) && |m.kind| == |m.refs| && n.refs == m.refs && n.kind == m.kind
    requires Counted(m, extra)
    ensures Counted(n, extra)
  {
    forall q | 0 <= q < |n.refs| && n.kind[q].Data?
      ensures n.refs[q] == |Mappers(n, q)| + if extra == Some(q) then 1 else 0
    {
      SameAddressSpacesSameMappers(m, n, q);
      assert m.kind[q].Data? && m.refs[q] == |Mappers(m, q)| + if extra == Some(q) then 1 else 0;
    }
  }

  function ZeroPage(): seq<Word> {
    seq(NENTRIES, _ => NULL)
  }

  /** Isolation: no store to a page used for data can change any mapping. */
  lemma DataWritesNeverReachPageTables(m: Mem, p: nat, words: seq<Word>)
    requires Shape(m) && p < |m.phys| && m.kind[p].Data? && |words| == NENTRIES
    ensures Shape(m.(phys := m.phys[p := words])) && SameAddressSpaces(m, m.(phys := m.phys[p := words]))
    ensures forall e, d :: Pde(m.(phys := m.phys[p := words]), e, d) == Pde(m, e, d)
  {
    var n := m.(phys := m.phys[p := words]);
    assert forall e, d :: Pde(n, e, d) == Pde(m, e, d);
    assert forall q, t | q != p :: WordAt(n, q, t) == WordAt(m, q, t);
  }

  /** Hang the zeroed page `p` in the directory of `e`. */
  function AddTable(m: Mem, e: nat, d: nat, p: nat): Mem
    requires e in m.pgdir
  {
    SetKind(SetRef(SetWord(m, m.pgdir[e], d, Word(p, {P, W, U})), p, RefOf(m, p) + 1), p, Table(e, d))
  }

  /** The empty page `p` may become the table of `(e, d)`. */
  ghost predicate CanHang(m: Mem, e: nat, d: nat, p: nat) {
    && Shape(m) && e in m.pgdir && d < NPDE && Pde(m, e, d) == NULL
    && p < |m.phys| && m.kind[p].Data? && m.phys[p] == ZeroPage() && Mappers(m, p) == {}
  }

  lemma AddTableWords(m: Mem, e: nat, d: nat, p: nat)
    requires CanHang(m, e, d, p)
    ensures var n, root, w := AddTable(m, e, d, p), m.pgdir[e], Word(p, {P, W, U});
            && m.kind[root] == Root(e) && root != p
            && n == Mem(m.phys[root := m.phys[root][d := w]], m.refs[p := m.refs[p] + 1], m.pgdir, m.kind[p := Table(e, d)])
            && (forall b, c :: Pde(n, b, c) == if b == e && c == d then w else Pde(m, b, c))
            && (forall q, t | q != root :: WordAt(n, q, t) == WordAt(m, q, t))
  {
  }

  lemma AddTableMapsNothing(m: Mem, e: nat, d: nat, p: nat)
    requires CanHang(m, e, d, p)
    ensures SameAddressSpaces(m, AddTable(m, e, d, p))
  {
    AddTableWords(m, e, d, p);
    var n := AddTable(m, e, d, p);
    forall l
      ensures Pte(n, l) == Pte(m, l)
    {
      if InRange(m, l) && Pde(m, l.e, l.d) != NULL {
        assert m.kind[Pde(m, l.e, l.d).frame] == Table(l.e, l.d);
      }
    }
  }

  lemma AddTableKeepsShape(m: Mem, e: nat, d: nat, p: nat)
    requires CanHang(m, e, d, p)
    ensures Shape(AddTable(m, e, d, p))
  {
    AddTableWords(m, e, d, p);
    var n := AddTable(m, e, d, p);
    forall q, t | 0 <= q < |n.kind| && n.kind[q].Table? && 0 <= t < NENTRIES && WordAt(n, q, t) != NULL
      ensures P in WordAt(n, q, t).flags && WordAt(n, q, t).frame < |n.phys| && n.kind[WordAt(n, q, t).frame].Data?
    {
      var l := Loc(m.kind[q].env, m.kind[q].pdx, t);
      assert Pte(m, l) == WordAt(m, q, t);
      assert l !in Mappers(m, p);
    }
  }

  lemma AddTableKeepsCounts(m: Mem, e: nat, d: nat, p: nat)
    requires Shape(m) && Counted(m, None) && e in m.pgdir && d < NPDE && Pde(m, e, d) == NULL
    requires p < |m.phys| && m.kind[p].Data? && m.phys[p] == ZeroPage() && m.refs[p] == 0
    ensures Shape(AddTable(m, e, d, p)) && Counted(AddTable(m, e, d, p), None)
    ensures SameAddressSpaces(m, AddTable(m, e, d, p))
  {
    assert |Mappers(m, p)| == 0;
    AddTableWords(m, e, d, p);
    AddTableMapsNothing(m, e, d, p);
    AddTableKeepsShape(m, e, d, p);
    hide Shape;
    var n := AddTable(m, e, d, p);
    forall q | 0 <= q < |n.refs| && n.kind[q].Data?
      ensures n.refs[q] == |Mappers(n, q)|
    {
      SameAddressSpacesSameMappers(m, n, q);
      assert m.kind[q].Data? && m.refs[q] == |Mappers(m, q)|;
    }
  }

  /** Take the empty table of `(e, d)` out of its directory. */
  function DropTable(m: Mem, e: nat, d: nat): Mem
    requires e in m.pgdir
  {
    var p := Pde(m, e, d).frame;
    SetKind(SetRef(SetWord(m, m.pgdir[e], d, NULL), p, if RefOf(m, p) > 0 then RefOf(m, p) - 1 else 0), p, Data)
  }

  lemma DropTableWords(m: Mem, e: nat, d: nat)
    requires Shape(m) && e in m.pgdir && d < NPDE && Pde(m, e, d) != NULL && RefOf(m, Pde(m, e, d).frame) == 1
    ensures var n, root, p := DropTable(m, e, d), m.pgdir[e], Pde(m, e, d).frame;
            && m.kind[root] == Root(e) && m.kind[p] == Table(e, d)
            && n == Mem(m.phys[root := m.phys[root][d := NULL]], m.refs[p := 0], m.pgdir, m.kind[p := Data])
            && (forall b, c :: Pde(n, b, c) == if b == e && c == d then NULL else Pde(m, b, c))
            && (forall q, t | q != root :: WordAt(n, q, t) == WordAt(m, q, t))
  {
    var root, p := m.pgdir[e], Pde(m, e, d).frame;
    assert m.kind[p] == Table(e, d) && m.kind[root] == Root(e);
  }

  lemma DropTableUnmapsNothing(m: Mem, e: nat, d: nat)
    requires Shape(m) && e in m.pgdir && d < NPDE && Pde(m, e, d) != NULL && RefOf(m, Pde(m, e, d).frame) == 1
    requires forall t | 0 <= t < NENTRIES :: Pte(m, Loc(e, d, t)) == NULL
    ensures SameAddressSpaces(m, DropTable(m, e, d)) && Mappers(DropTable(m, e, d), Pde(m, e, d).frame) == {}
  {
    DropTableWords(m, e, d);
    var n, p := DropTable(m, e, d), Pde(m, e, d).frame;
    forall l
      ensures Pte(n, l) == Pte(m, l)
    {
      if InRange(m, l) && Pde(m, l.e, l.d) != NULL {
        assert m.kind[Pde(m, l.e, l.d).frame] == Table(l.e, l.d);
      }
    }
    forall l
      ensures l !in Mappers(m, p)
    {
      if Pte(m, l) != NULL {
        assert m.kind[Pde(m, l.e, l.d).frame] == Table(l.e, l.d);
        assert Pte(m, l) == WordAt(m, Pde(m, l.e, l.d).frame, l.t);
      }
    }
    SameAddressSpacesSameMappers(m, n, p);
  }

  lemma DropTableKeepsShape(m: Mem, e: nat, d: nat)
    requires Shape(m) && e in m.pgdir && d < NPDE && Pde(m, e, d) != NULL && RefOf(m, Pde(m, e, d).frame) == 1
    ensures Shape(DropTable(m, e, d))
  {
    DropTableWords(m, e, d);
  }

  /** A mapped page is referenced. */
  lemma MappedPageIsCounted(m: Mem, extra: Option<nat>, l: Loc)
    requires Shape(m) && Counted(m, extra) && Pte(m, l) != NULL
    ensures Storable(m, Pte(m, l)) && P in Pte(m, l).flags
    ensures |m.phys[Pte(m, l).frame]| == NENTRIES
    ensures m.refs[Pte(m, l).frame] >= 1 + if extra == Some(Pte(m, l).frame) then 1 else 0
  {
    var w := Pte(m, l);
    assert m.kind[Pde(m, l.e, l.d).frame] == Table(l.e, l.d);
    assert w == WordAt(m, Pde(m, l.e, l.d).frame, l.t);
    assert l in Mappers(m, w.frame);
    assert Mappers(m, w.frame) >= {l};
    assert |Mappers(m, w.frame)| == |Mappers(m, w.frame) - {l}| + 1;
  }

  /** Clear the entry at `l` and drop the reference it held. */
  function Unmap(m: Mem, l: Loc): Mem {
    var p := Pte(m, l).frame;
    SetRef(SetPte(m, l, NULL), p, if RefOf(m, p) > 0 then RefOf(m, p) - 1 else 0)
  }

  lemma OnlyRefsDiffer(m: Mem, n: Mem)
    requires Shape(m) && n == m.(refs := n.refs) && |n.refs| == |m.refs|
    ensures Shape(n) && SameAddressSpaces(m, n)
  {
    assert forall e, d :: Pde(m, e, d) == Pde(n, e, d);
    assert forall p, t :: WordAt(m, p, t) == WordAt(n, p, t);
  }

  lemma UnmapIsOneUpdate(m: Mem, extra: Option<nat>, l: Loc)
    requires Shape(m) && Counted(m, extra) && Pte(m, l) != NULL
    ensures Shape(Unmap(m, l)) && Updated(m, Unmap(m, l), l, NULL)
  {
    SetPteIsOneUpdate(m, l, NULL);
    OnlyRefsDiffer(SetPte(m, l, NULL), Unmap(m, l));
  }

  lemma CountsAfterUnmap(m: Mem, n: Mem, extra: Option<nat>, l: Loc)
    requires |m.kind| == |m.refs| && Counted(m, extra) && Updated(m, n, l, NULL) && Pte(m, l) != NULL
    requires Pte(m, l).frame < |m.refs| && m.refs[Pte(m, l).frame] > 0 && m.kind[Pte(m, l).frame].Data?
    requires n.kind == m.kind && n.refs == m.refs[Pte(m, l).frame := m.refs[Pte(m, l).frame] - 1]
    ensures Counted(n, extra)
  {
    forall q | 0 <= q < |n.refs| && n.kind[q].Data?
      ensures n.refs[q] == |Mappers(n, q)| + if extra == Some(q) then 1 else 0
    {
      UpdateMovesOneReference(m, n, l, NULL, q);
      assert m.kind[q].Data? && m.refs[q] == |Mappers(m, q)| + if extra == Some(q) then 1 else 0;
    }
  }

  /** Clearing an entry drops exactly its own reference, and writes nothing but a page table. */
  lemma UnmapIsExact(m: Mem, extra: Option<nat>, l: Loc)
    requires Shape(m) && Counted(m, extra) && Pte(m, l) != NULL
    ensures Shape(Unmap(m, l)) && Counted(Unmap(m, l), extra) && Updated(m, Unmap(m, l), l, NULL)
    ensures var n, p, t := Unmap(m, l), Pte(m, l).frame, Pde(m, l.e, l.d).frame;
            && p < |m.refs| && m.kind[p].Data? && m.refs[p] > 0 && t < |m.phys| && m.kind[t].Table?
            && |m.phys[t]| == NENTRIES && l.t < NENTRIES
            && n == Mem(m.phys[t := m.phys[t][l.t := NULL]], m.refs[p := m.refs[p] - 1], m.pgdir, m.kind)
    ensures forall e, d :: Pde(Unmap(m, l), e, d) == Pde(m, e, d)
  {
    hide Counted, Mappers, Updated;
    MappedPageIsCounted(m, extra, l);
    UnmapIsOneUpdate(m, extra, l);
    SetPteUpdates(m, l, NULL);
    hide Shape, Pte, SetPte;
    CountsAfterUnmap(m, Unmap(m, l), extra, l);
  }

  /** Install an entry where there is none, turning the pending reference into a real one. */
  lemma InstallSettlesReference(m: Mem, l: Loc, w: Word)
    requires Shape(m) && InRange(m, l) && Pde(m, l.e, l.d) != NULL && Pte(m, l) == NULL
    requires w != NULL && Storable(m, w) && Counted(m, Some(w.frame))
    ensures Shape(SetPte(m, l, w)) && Counted(SetPte(m, l, w), None)
    ensures Updated(m, SetPte(m, l, w), l, w)
  {
    SetPteIsOneUpdate(m, l, w);
    var n := SetPte(m, l, w);
    forall q | 0 <= q < |n.refs| && n.kind[q].Data?
      ensures n.refs[q] == |Mappers(n, q)|
    {
      UpdateMovesOneReference(m, n, l, w, q);
      assert m.kind[q].Data? && m.refs[q] == |Mappers(m, q)| + if w.frame == q then 1 else 0;
    }
  }

  /** An entry that names another page than the one whose count was raised. */
  lemma StrayEntryMiscounts(m: Mem, l: Loc, p: nat, w: Word)
    requires Shape(m) && InRange(m, l) && Pde(m, l.e, l.d) != NULL && Pte(m, l) == NULL
    requires p < |m.refs| && m.kind[p].Data? && Counted(m, Some(p)) && w != NULL && w.frame != p
    ensures Updated(m, SetPte(m, l, w), l, w)
    ensures var n := SetPte(m, l, w); |n.kind| == |n.refs| && n.refs[p] == |Mappers(n, p)| + 1 && !Counted(n, None)
  {
    SetPteUpdates(m, l, w);
    var n := SetPte(m, l, w);
    UpdateMovesOneReference(m, n, l, w, p);
    assert n.kind[p].Data? && n.refs[p] != |Mappers(n, p)|;
  }

  /** The last line of page_insert, after the reference of `p` was taken: right exactly when it
      names `p`. */
  lemma SettleIsExact(m: Mem, l: Loc, p: nat, w: Word)
    requires Shape(m) && InRange(m, l) && Pde(m, l.e, l.d) != NULL && Pte(m, l) == NULL
    requires p < |m.refs| && m.kind[p].Data? && Counted(m, Some(p)) && P in w.flags
    ensures var n := SetPte(m, l, w);
            |n.kind| == |n.refs| && Updated(m, n, l, w) && (Shape(n) && Counted(n, None) <==> w.frame == p)
  {
    SetPteUpdates(m, l, w);
    if w.frame == p {
      InstallSettlesReference(m, l, w);
    } else {
      StrayEntryMiscounts(m, l, p, w);
    }
  }

  /** Only an argument without page-number bits leaves every page number as it is. */
  lemma NoHighBitsExactly(hi: nat)
    ensures (forall f :: Or(f, hi) == f) <==> hi == 0
  {
    assert Or(0, hi) == hi;
  }

  /** With the lowest page-number bit in `perm`, a page in an even frame is entered as the one
      after it; when that is a page table, a page table is mapped. */
  lemma HighBitMapsNextPage(m: Mem, n: Mem, l: Loc, f: nat, flags: set<Flag>)
    requires f % 2 == 0 && f + 1 < |n.kind| && n.kind[f + 1].Table?
    requires Updated(m, n, l, Entry(f, Word(1, flags)))
    ensures Entry(f, Word(1, flags)).frame == f + 1
    ensures Mappers(n, f + 1) != {} && !Shape(n)
  {
    if f > 0 {
      assert Or(f, 1) == 2 * Or(f / 2, 0) + 1;
      assert Or(f / 2, 0) == f / 2;
    }
    assert l in Mappers(n, f + 1);
    if Shape(n) {
      NotDataNotMapped(n, f + 1);
    }
  }

  /** `pp->pp_ref++` creates a pending reference. */
  lemma TakeReference(m: Mem, p: nat)
    requires Shape(m) && Counted(m, None) && p < |m.refs| && m.kind[p].Data?
    ensures Shape(SetRef(m, p, RefOf(m, p) + 1)) && Counted(SetRef(m, p, RefOf(m, p) + 1), Some(p))
    ensures SameAddressSpaces(m, SetRef(m, p, RefOf(m, p) + 1))
    ensures forall e, d :: Pde(SetRef(m, p, RefOf(m, p) + 1), e, d) == Pde(m, e, d)
  {
    var n := SetRef(m, p, RefOf(m, p) + 1);
    OnlyRefsDiffer(m, n);
    forall q | 0 <= q < |n.refs| && n.kind[q].Data?
      ensures n.refs[q] == |Mappers(n, q)| + if p == q then 1 else 0
    {
      SameAddressSpacesSameMappers(m, n, q);
      assert m.kind[q].Data? && m.refs[q] == |Mappers(m, q)|;
    }
  }

  lemma DropTableIsExact(m: Mem, e: nat, d: nat)
    requires Shape(m) && Counted(m, None) && e in m.pgdir && d < NPDE && Pde(m, e, d) != NULL
    requires forall t | 0 <= t < NENTRIES :: Pte(m, Loc(e, d, t)) == NULL
    ensures Shape(DropTable(m, e, d)) && Counted(DropTable(m, e, d), None) && SameAddressSpaces(m, DropTable(m, e, d))
    ensures var n, root, p := DropTable(m, e, d), m.pgdir[e], Pde(m, e, d).frame;
            && p < |m.refs| && m.kind[p] == Table(e, d) && m.refs[p] == 1 && root < |m.phys| && |m.phys[root]| == NENTRIES
            && m.kind[root] == Root(e)
            && n == Mem(m.phys[root := m.phys[root][d := NULL]], m.refs[p := 0], m.pgdir, m.kind[p := Data])
    ensures forall b, c :: Pde(DropTable(m, e, d), b, c) == if b == e && c == d then NULL else Pde(m, b, c)
  {
    var n := DropTable(m, e, d);
    var p := Pde(m, e, d).frame;
    assert m.kind[p] == Table(e, d) && m.refs[p] == 1 && m.kind[m.pgdir[e]] == Root(e);
    DropTableWords(m, e, d);
    DropTableUnmapsNothing(m, e, d);
    DropTableKeepsShape(m, e, d);
    hide Shape;
    forall q | 0 <= q < |n.refs| && n.kind[q].Data?
      ensures n.refs[q] == |Mappers(n, q)|
    {
      SameAddressSpacesSameMappers(m, n, q);
      if q != p {
        assert m.kind[q].Data? && m.refs[q] == |Mappers(m, q)|;
      }
    }
  }

  lemma TableWords(m: Mem, e: nat, d: nat, t: nat)
    requires Shape(m) && e in m.pgdir && d < NPDE && t < NENTRIES && Pde(m, e, d) != NULL
    ensures var pa := Pde(m, e, d).frame;
            pa < |m.phys| && |m.phys[pa]| == NENTRIES && Pte(m, Loc(e, d, t)) == m.phys[pa][t]
    ensures Pte(m, Loc(e, d, t)) == NULL <==> P !in Pte(m, Loc(e, d, t)).flags
  {
    assert m.kind[Pde(m, e, d).frame] == Table(e, d);
    assert Pte(m, Loc(e, d, t)) == WordAt(m, Pde(m, e, d).frame, t);
  }

  lemma DirectoryWords(m: Mem, e: nat, d: nat)
    requires Shape(m) && e in m.pgdir && d < NPDE
    ensures m.pgdir[e] < |m.phys| && |m.phys[m.pgdir[e]]| == NENTRIES && Pde(m, e, d) == m.phys[m.pgdir[e]][d]
    ensures Pde(m, e, d) == NULL <==> P !in Pde(m, e, d).flags
  {
  }

  lemma EmptyDirectoryMapsNothing(m: Mem, e: nat)
    requires forall d | 0 <= d < NPDE :: Pde(m, e, d) == NULL
    ensures forall l: Loc | l.e == e :: Pte(m, l) == NULL
  {
  }

  /** A directory below UTOP with nothing in it. */
  predicate EmptyBelowUtop(words: seq<Word>) {
    |words| == NENTRIES && forall d | 0 <= d < NPDE :: words[d] == NULL
  }

  /** Give environment `e` the page `p` as its directory. */
  function AddRoot(m: Mem, e: nat, p: nat, words: seq<Word>): Mem {
    if p < |m.phys| && p < |m.refs| && p < |m.kind| then
      Mem(m.phys[p := words], m.refs[p := m.refs[p] + 1], m.pgdir[e := p], m.kind[p := Root(e)])
    else m
  }

  lemma AddRootWords(m: Mem, e: nat, p: nat, words: seq<Word>)
    requires Shape(m) && e !in m.pgdir && p < |m.phys| && m.kind[p].Data? && EmptyBelowUtop(words)
    ensures var n := AddRoot(m, e, p, words);
            && (forall b, d :: Pde(n, b, d) == Pde(m, b, d))
            && (forall q, t | q != p :: WordAt(n, q, t) == WordAt(m, q, t))
            && SameAddressSpaces(m, n)
  {
    var n := AddRoot(m, e, p, words);
    assert forall b | b in m.pgdir :: m.kind[m.pgdir[b]] == Root(b);
    forall l
      ensures Pte(n, l) == Pte(m, l)
    {
      if InRange(m, l) && Pde(m, l.e, l.d) != NULL {
        assert m.kind[Pde(m, l.e, l.d).frame] == Table(l.e, l.d);
      }
    }
  }

  lemma AddRootKeepsShape(m: Mem, e: nat, p: nat, words: seq<Word>)
    requires Shape(m) && e !in m.pgdir && p < |m.phys| && m.kind[p].Data? && Mappers(m, p) == {}
    requires EmptyBelowUtop(words)
    ensures Shape(AddRoot(m, e, p, words))
  {
    AddRootWords(m, e, p, words);
    var n := AddRoot(m, e, p, words);
    forall q, t | 0 <= q < |n.kind| && n.kind[q].Table? && 0 <= t < NENTRIES && WordAt(n, q, t) != NULL
      ensures P in WordAt(n, q, t).flags && WordAt(n, q, t).frame < |n.phys| && n.kind[WordAt(n, q, t).frame].Data?
    {
      var l := Loc(m.kind[q].env, m.kind[q].pdx, t);
      assert Pte(m, l) == WordAt(m, q, t);
      assert l !in Mappers(m, p);
    }
  }

  lemma AddRootIsExact(m: Mem, e: nat, p: nat, words: seq<Word>)
    requires Shape(m) && Counted(m, None) && e !in m.pgdir && p < |m.phys| && m.kind[p].Data? && m.refs[p] == 0
    requires EmptyBelowUtop(words)
    ensures Shape(AddRoot(m, e, p, words)) && Counted(AddRoot(m, e, p, words), None)
    ensures SameAddressSpaces(m, AddRoot(m, e, p, words))
  {
    assert |Mappers(m, p)| == 0;
    AddRootWords(m, e, p, words);
    AddRootKeepsShape(m, e, p, words);
    hide Shape;
    var n := AddRoot(m, e, p, words);
    forall q | 0 <= q < |n.refs| && n.kind[q].Data?
      ensures n.refs[q] == |Mappers(n, q)|
    {
      SameAddressSpacesSameMappers(m, n, q);
      assert m.kind[q].Data? && m.refs[q] == |Mappers(m, q)|;
    }
  }

  /** Take away the emptied directory of `e`. */
  function DropRoot(m: Mem, e: nat): Mem
    requires e in m.pgdir
  {
    var p := m.pgdir[e];
    SetKind(SetRef(m.(pgdir := m.pgdir - {e}), p, if RefOf(m, p) > 0 then RefOf(m, p) - 1 else 0), p, Data)
  }

  lemma DropRootIsExact(m: Mem, e: nat)
    requires Shape(m) && Counted(m, None) && e in m.pgdir && forall d | 0 <= d < NPDE :: Pde(m, e, d) == NULL
    ensures Shape(DropRoot(m, e)) && Counted(DropRoot(m, e), None) && SameAddressSpaces(m, DropRoot(m, e))
    ensures var n, p := DropRoot(m, e), m.pgdir[e];
            && p < |m.refs| && m.refs[p] == 1 && m.kind[p] == Root(e)
            && n == Mem(m.phys, m.refs[p := 0], m.pgdir - {e}, m.kind[p := Data])
  {
    var n, p := DropRoot(m, e), m.pgdir[e];
    assert m.kind[p] == Root(e) && m.refs[p] == 1;
    assert forall b, d :: Pde(n, b, d) == Pde(m, b, d);
    assert forall q, t :: WordAt(n, q, t) == WordAt(m, q, t);
    assert Shape(n) && SameAddressSpaces(m, n);
    assert Mappers(m, p) == {};
    hide Shape;
    forall q | 0 <= q < |n.refs| && n.kind[q].Data?
      ensures n.refs[q] == |Mappers(n, q)|
    {
      SameAddressSpacesSameMappers(m, n, q);
      if q != p {
        assert m.kind[q].Data? && m.refs[q] == |Mappers(m, q)|;
      }
    }
  }

  // ---------------------------------------------------------------- the free list

  /** `chain` is the list that starts at `head`: no page twice, every other page unlinked. */
  ghost predicate IsChain(link: seq<Option<nat>>, head: Option<nat>, chain: seq<nat>) {
    && head == (if |chain| == 0 then None else Some(chain[0]))
    && (forall i | 0 <= i < |chain| :: chain[i] < |link|)
    && (forall i {:trigger NextIn(chain, i)} | 0 <= i < |chain| :: link[chain[i]] == NextIn(chain, i))
    && (forall i, j | 0 <= i < j < |chain| :: chain[i] != chain[j])
    && (forall p: nat | p < |link| && p !in chain :: link[p] == None)
  }

  ghost function NextIn(chain: seq<nat>, i: nat): Option<nat> {
    if i + 1 < |chain| then Some(chain[i + 1]) else None
  }

  lemma PopKeepsChain(link: seq<Option<nat>>, head: Option<nat>, chain: seq<nat>)
    requires IsChain(link, head, chain) && |chain| > 0
    ensures IsChain(link[chain[0] := None], link[chain[0]], chain[1..]) && chain[0] !in chain[1..]
  {
    var rest := chain[1..];
    assert link[chain[0]] == NextIn(chain, 0);
    forall i {:trigger NextIn(rest, i)} | 0 <= i < |rest|
      ensures link[chain[0] := None][rest[i]] == NextIn(rest, i)
    {
      assert rest[i] == chain[i + 1] && NextIn(rest, i) == NextIn(chain, i + 1);
    }
    forall p | p in chain && p != chain[0]
      ensures p in rest
    {
      var i :| 0 <= i < |chain| && chain[i] == p;
      assert rest[i - 1] == p;
    }
  }

  lemma PushKeepsChain(link: seq<Option<nat>>, head: Option<nat>, chain: seq<nat>, p: nat)
    requires IsChain(link, head, chain) && p < |link| && p !in chain
    ensures IsChain(link[p := head], Some(p), [p] + chain)
  {
    var more := [p] + chain;
    forall i {:trigger NextIn(more, i)} | 0 <= i < |more|
      ensures link[p := head][more[i]] == NextIn(more, i)
    {
      if i > 0 {
        assert more[i] == chain[i - 1] && link[chain[i - 1]] == NextIn(chain, i - 1);
      }
    }
  }

  // ---------------------------------------------------------------- what the counts mean

  ghost function PdeRefs(m: Mem, p: nat): set<(nat, nat)> {
    set e, d | e in m.pgdir.Keys && 0 <= d < NPDE && Pde(m, e, d) != NULL && Pde(m, e, d).frame == p :: (e, d)
  }

  ghost function RootRefs(m: Mem, p: nat): set<nat> {
    set e | e in m.pgdir.Keys && m.pgdir[e] == p
  }

  /** `pp_ref` of every allocatable page is the number of page-table entries, directory entries
      and directory roots that name it. */
  lemma ReferenceCountsAreExact(m: Mem, p: nat)
    requires Shape(m) && Counted(m, None) && p < |m.refs| && !m.kind[p].Reserved?
    ensures m.refs[p] == |Mappers(m, p)| + |PdeRefs(m, p)| + |RootRefs(m, p)|
  {
    match m.kind[p]
    case Data =>
      assert PdeRefs(m, p) == {} && RootRefs(m, p) == {};
    case Root(e) =>
      assert RootRefs(m, p) == {e} && PdeRefs(m, p) == {};
      NotDataNotMapped(m, p);
    case Table(e, d) =>
      assert PdeRefs(m, p) == {(e, d)} && RootRefs(m, p) == {};
      NotDataNotMapped(m, p);
  }

  /** No environment can reach a page table or a directory through its own entries. */
  lemma NotDataNotMapped(m: Mem, p: nat)
    requires Shape(m) && p < |m.kind| && !m.kind[p].Data?
    ensures Mappers(m, p) == {}
  {
    forall l
      ensures l !in Mappers(m, p)
    {
      if Pte(m, l) != NULL {
        TableWords(m, l.e, l.d, l.t);
        assert m.kind[Pde(m, l.e, l.d).frame] == Table(l.e, l.d);
        assert Pte(m, l) == WordAt(m, Pde(m, l.e, l.d).frame, l.t);
      }
    }
  }

  /** What env_free does to the count of any page: minus the dying environment's entries. */
  lemma FreeingDropsOnlyItsOwnReferences(m: Mem, n: Mem, e: nat, p: nat)
    requires forall x: Loc :: Pte(n, x) == if x.e == e then NULL else Pte(m, x)
    ensures |Mappers(n, p)| == |Mappers(m, p)| - |set l | l in Mappers(m, p) && l.e == e|
  {
    var own := set l | l in Mappers(m, p) && l.e == e;
    assert Mappers(n, p) == Mappers(m, p) - own;
  }

  // ---------------------------------------------------------------- the kernel's fields

  /** Page 0, the page the other CPUs boot from, the I/O hole, and the kernel itself. */
  predicate BootPage(p: nat, kernelEnd: nat) {
    p == 0 || p == 0x7 || 0xA0 <= p < 0x100 || 0x100 <= p < kernelEnd
  }

  /** The pages of the highest addresses come first. */
  ghost predicate Descends(q: seq<nat>) {
    forall i: nat, j: nat | i < j < |q| :: q[i] > q[j]
  }

  lemma EmptyDescends()
    ensures Descends([])
  {
  }

  lemma PushDescends(q: seq<nat>, p: nat)
    requires Descends(q) && forall x: nat | x in q :: x < p
    ensures Descends([p] + q)
  {
    assert forall k: nat | k < |q| :: q[k] in q;
  }

  class Kernel {
    var phys: seq<seq<Word>>
    var refs: seq<nat>
    var link: seq<Option<nat>>     // pp_link
    var freeHead: Option<nat>      // page_free_list
    var pgdir: map<nat, nat>
    ghost var kind: seq<Kind>
    ghost var free: seq<nat>       // the chain from page_free_list

    ghost function Snap(): Mem
      reads this
    {
      Mem(phys, refs, pgdir, kind)
    }

    ghost predicate FreeListOk()
      reads this
    {
      |link| == |phys| == |refs| == |kind| && IsChain(link, freeHead, free)
    }

    /** Tables well formed, counts exact up to one pending reference, free pages unreferenced. */
    ghost predicate Good(extra: Option<nat>)
      reads this
    {
      && Shape(Snap()) && Counted(Snap(), extra) && FreeListOk()
      && (forall p | p in free :: p < |phys| && kind[p].Data? && refs[p] == 0)
      && (extra.Some? ==> extra.value < |phys| && kind[extra.value].Data?)
    }

    ghost predicate Valid()
      reads this
    {
      Good(None)
    }

    /** `page_init`: every page outside the reserved ranges goes on the free list. */
    constructor (npages: nat, kernelEnd: nat)
      ensures Valid() && pgdir == map[] && Lost() == {} && |phys| == npages
      ensures forall p: nat :: p in free <==> p < npages && !BootPage(p, kernelEnd)
      ensures forall p: nat :: p in free <==>
                && 0 < p < npages && PGSIZE * p != 0x7000                       // MPENTRY_PADDR
                && !(0xA0000 <= PGSIZE * p < 0x100000)                          // IOPHYSMEM, EXTPHYSMEM
                && !(0x100000 <= PGSIZE * p < PGSIZE * kernelEnd)
      ensures Descends(free)
    {
      hide Descends;
      phys := seq(npages, _ => ZeroPage());
      refs := seq(npages, _ => 0);
      link := seq(npages, _ => None);
      freeHead := None;
      pgdir := map[];
      kind := seq(npages, p requires 0 <= p < npages => if BootPage(p, kernelEnd) then Reserved else Data);
      free := [];
      assert Descends([]) by {
        EmptyDescends();
      }
      new;
      for i := 0 to npages
        invariant FreeListOk() && pgdir == map[] && phys == seq(npages, _ => ZeroPage()) && refs == seq(npages, _ => 0)
        invariant kind == seq(npages, p requires 0 <= p < npages => if BootPage(p, kernelEnd) then Reserved else Data)
        invariant forall p: nat :: p in free <==> p < i && !BootPage(p, kernelEnd)
        invariant Descends(free)
      {
        PushDescends(free, i);
        if !BootPage(i, kernelEnd) {
          PageFree(i);
        }
      }
      assert forall p: nat :: Mappers(Snap(), p) == {};
      assert Counted(Snap(), None);
    }

    /** Pages nobody references and page_alloc will never hand out: in flight, or leaked. */
    ghost function Lost(): (r: set<nat>)
      reads this
      ensures forall p: nat :: p in r <==> IsLost(p)
    {
      set p: nat | p < |refs| && IsLost(p)
    }

    ghost predicate IsLost(p: nat)
      reads this
    {
      p < |refs| && p < |kind| && kind[p].Data? && refs[p] == 0 && p !in free
    }

    /** A page taken from the free list and still in use. */
    ghost predicate Taken(p: nat)
      reads this
    {
      p < |phys| && p < |kind| && kind[p].Data? && p !in free
    }

    method PageAlloc(zero: bool) returns (p: Option<nat>)
      requires Valid()
      modifies `phys, `link, `freeHead, `free
      ensures Valid() && SameAddressSpaces(old(Snap()), Snap())
      ensures old(free) == [] ==> p == None && unchanged(this)
      ensures old(free) != [] ==> p == Some(old(free)[0]) && free == old(free)[1..] && Taken(p.value)
      ensures old(free) != [] ==>
                phys == (if zero then old(phys)[old(free)[0] := ZeroPage()] else old(phys))
      ensures Lost() == if old(free) == [] then old(Lost()) else old(Lost()) + {old(free)[0]}
      ensures forall e, d :: Pde(Snap(), e, d) == old(Pde(Snap(), e, d))
    {
      if freeHead == None {
        return None;
      }
      var page := freeHead.value;
      ghost var before := Snap();
      PopKeepsChain(link, freeHead, free);
      DataWritesNeverReachPageTables(before, page, ZeroPage());
      SameAddressSpacesSameCounts(before, before.(phys := before.phys[page := ZeroPage()]), None);
      hide IsChain, Shape, Counted, Pte, Pde, Mappers;
      freeHead := link[page];
      link := link[page := None];
      free := free[1..];
      if zero {
        phys := phys[page := ZeroPage()];
        assert Snap() == before.(phys := before.phys[page := ZeroPage()]);
      }
      p := Some(page);
    }

    method PageFree(p: nat)
      requires FreeListOk() && p < |refs| && refs[p] == 0 && p !in free
      modifies `link, `freeHead, `free
      ensures FreeListOk() && free == [p] + old(free)
    {
      PushKeepsChain(link, freeHead, free, p);
      link := link[p := freeHead];
      freeHead := Some(p);
      free := [p] + free;
    }

    method PageDecref(p: nat)
      requires FreeListOk() && p < |refs| && refs[p] > 0 && p !in free
      modifies `refs, `link, `freeHead, `free
      ensures FreeListOk() && refs == old(refs)[p := old(refs)[p] - 1]
      ensures free == if refs[p] == 0 then [p] + old(free) else old(free)
    {
      refs := refs[p := refs[p] - 1];
      if refs[p] == 0 {
        PageFree(p);
      }
    }

    /** The page-table branch of pgdir_walk, once page_alloc has delivered. */
    method HangTable(e: nat, d: nat, p: nat)
      requires Valid() && e in pgdir && d < NPDE && Pde(Snap(), e, d) == NULL
      requires Taken(p) && refs[p] == 0 && phys[p] == ZeroPage()
      modifies `phys, `refs, `kind
      ensures Valid() && Snap() == AddTable(old(Snap()), e, d, p) && SameAddressSpaces(old(Snap()), Snap())
      ensures Pde(Snap(), e, d) == Word(p, {P, W, U})
    {
      AddTableKeepsCounts(Snap(), e, d, p);
      ghost var after := AddTable(Snap(), e, d, p);
      refs := refs[p := refs[p] + 1];
      phys := phys[pgdir[e] := phys[pgdir[e]][d := Word(p, {P, W, U})]];
      kind := kind[p := Table(e, d)];
      assert Snap() == after;
    }

    /** The page table for directory slot `d`, created on demand. */
    method PgdirWalk(e: nat, d: nat, create: bool, ghost extra: Option<nat>) returns (t: Option<nat>)
      requires Good(extra) && (create ==> extra == None) && e in pgdir && d < NPDE
      modifies `phys, `refs, `link, `freeHead, `free, `kind
      ensures Good(extra) && SameAddressSpaces(old(Snap()), Snap())
      ensures t == if Pde(Snap(), e, d) != NULL then Some(Pde(Snap(), e, d).frame) else None
      ensures t == None <==> old(Pde(Snap(), e, d)) == NULL && (!create || old(free) == [])
      ensures !create || t == None ==> unchanged(this)
      ensures forall p: nat | old(Taken(p)) :: Taken(p) && phys[p] == old(phys)[p] && refs[p] == old(refs)[p]
      ensures Lost() == old(Lost()) && pgdir == old(pgdir) && |phys| == |old(phys)|
    {
      hide Counted, IsChain;
      if phys[pgdir[e]][d] == NULL && create {
        var page := PageAlloc(true);
        if page.Some? {
          HangTable(e, d, page.value);
        }
      }
      if phys[pgdir[e]][d] != NULL {
        t := Some(phys[pgdir[e]][d].frame);
      } else {
        t := None;
      }
    }

    /** The page mapped at `l`; the test on the entry is "nonzero", as written. */
    method PageLookup(l: Loc, ghost extra: Option<nat>) returns (r: Option<Word>)
      requires Good(extra) && InRange(Snap(), l)
      modifies `phys, `refs, `link, `freeHead, `free, `kind
      ensures unchanged(this)
      ensures r == if Pte(Snap(), l) == NULL then None else Some(Pte(Snap(), l))
      ensures r.Some? ==> P in r.value.flags && Taken(r.value.frame)
    {
      var t := PgdirWalk(l.e, l.d, false, extra);
      if t == None || phys[t.value][l.t] == NULL {
        return None;
      }
      r := Some(phys[t.value][l.t]);
    }

    /** The decisive lines of page_remove: page_decref, then `*pte = 0`. */
    method ClearEntry(t: nat, l: Loc, w: Word, ghost extra: Option<nat>)
      requires Good(extra) && w == Pte(Snap(), l) != NULL && t == Pde(Snap(), l.e, l.d).frame
      modifies `phys, `refs, `link, `freeHead, `free
      ensures Good(extra) && Snap() == Unmap(old(Snap()), l)
      ensures free == if RefOf(Snap(), w.frame) == 0 then [w.frame] + old(free) else old(free)
      ensures Lost() == old(Lost())
    {
      hide Shape, Counted, IsChain, Pte, Pde, Updated, Unmap;
      ghost var after := Unmap(Snap(), l);
      UnmapIsExact(Snap(), extra, l);
      PageDecref(w.frame);
      phys := phys[t := phys[t][l.t := NULL]];
      assert Snap() == after;
    }

    method PageRemove(l: Loc, ghost extra: Option<nat>)
      requires Good(extra) && InRange(Snap(), l)
      modifies `phys, `refs, `link, `freeHead, `free, `kind
      ensures Good(extra) && Updated(old(Snap()), Snap(), l, NULL)
      ensures old(Pte(Snap(), l)) == NULL ==> unchanged(this)
      ensures old(Pte(Snap(), l)) != NULL ==>
                var p := old(Pte(Snap(), l)).frame;
                Snap() == Unmap(old(Snap()), l) &&
                free == if RefOf(Snap(), p) == 0 then [p] + old(free) else old(free)
      ensures forall e, d :: Pde(Snap(), e, d) == old(Pde(Snap(), e, d))
      ensures kind == old(kind) && pgdir == old(pgdir) && |phys| == |old(phys)|
      ensures forall q: nat | q < |phys| && kind[q].Data? :: phys[q] == old(phys)[q]
      ensures extra.Some? && old(Taken(extra.value)) ==> Taken(extra.value)
      ensures Lost() == old(Lost())
    {
      hide Shape, Counted, IsChain, Unmap, Mappers;
      var t := PgdirWalk(l.e, l.d, false, extra);
      var w := PageLookup(l, extra);
      if t == None || w == None {
        return;
      }
      UnmapIsExact(Snap(), extra, l);
      MappedPageIsCounted(Snap(), extra, l);
      ClearEntry(t.value, l, w.value, extra);
    }

    /** Map page `p` at `l`; one path serves re-insertion of the same page at the same place.  The
        caller's `perm` is taken as it is, page-number bits and all. */
    method PageInsert(p: nat, l: Loc, perm: Word) returns (r: int)
      requires Valid() && InRange(Snap(), l) && Taken(p)
      modifies `phys, `refs, `link, `freeHead, `free, `kind
      ensures Valid() <==> r == E_NO_MEM || Or(p, perm.frame) == p
      ensures r == if old(Pde(Snap(), l.e, l.d)) == NULL && old(free) == [] then E_NO_MEM else E_OK
      ensures r == E_NO_MEM ==> unchanged(this)
      ensures r == E_OK ==> Updated(old(Snap()), Snap(), l, Entry(p, perm)) && Lost() == old(Lost()) - {p}
      ensures Taken(p) && pgdir == old(pgdir) && |phys| == |old(phys)|
      ensures forall q: nat | old(Taken(q)) :: q < |phys| && phys[q] == old(phys)[q]
    {
      hide Shape, Counted, IsChain, Unmap, Mappers, Or;
      var t := PgdirWalk(l.e, l.d, true, None);
      if t == None {
        return E_NO_MEM;
      }
      ghost var walked := Snap();
      TakeReference(walked, p);
      refs := refs[p := refs[p] + 1];
      assert Lost() == old(Lost()) - {p};
      PageRemove(l, Some(p));
      Settle(t.value, p, l, Entry(p, perm));
      assert forall x :: Pte(Snap(), x) == if x == l then Entry(p, perm) else old(Pte(Snap(), x));
      r := E_OK;
    }

    /** The last line of page_insert: `*page_table = new_pte`. */
    method Settle(t: nat, p: nat, l: Loc, w: Word)
      requires Good(Some(p)) && InRange(Snap(), l) && Pde(Snap(), l.e, l.d) != NULL && t == Pde(Snap(), l.e, l.d).frame
      requires Pte(Snap(), l) == NULL && P in w.flags
      modifies `phys
      ensures Valid() <==> w.frame == p
      ensures Updated(old(Snap()), Snap(), l, w) && |phys| == |old(phys)| && Lost() == old(Lost())
      ensures forall q: nat | q < |phys| && kind[q].Data? :: phys[q] == old(phys)[q]
    {
      hide Shape, Counted, IsChain, Mappers, Updated, Pte, Pde, SetPte;
      SetPteUpdates(Snap(), l, w);
      SettleIsExact(Snap(), l, p, w);
      ghost var after := SetPte(Snap(), l, w);
      phys := phys[t := phys[t][l.t := w]];
      assert Snap() == after;
    }

    // -------------------------------------------------------------- system calls

    /** page_alloc then page_insert; with one free page and no page table the insert fails. */
    method AllocThenInsert(l: Loc, perm: set<Flag>) returns (r: int)
      requires Valid() && InRange(Snap(), l) && free != []
      modifies `phys, `refs, `link, `freeHead, `free, `kind
      ensures Valid() && pgdir == old(pgdir) && |phys| == |old(phys)|
      ensures r == if old(Pde(Snap(), l.e, l.d)) == NULL && |old(free)| == 1 then E_NO_MEM else E_OK
      ensures r == E_NO_MEM ==> SameAddressSpaces(old(Snap()), Snap()) && Lost() == old(Lost()) + {old(free)[0]} && free == []
      ensures r == E_OK ==> Updated(old(Snap()), Snap(), l, Word(old(free)[0], perm + {P})) && Lost() == old(Lost())
      ensures r == E_OK ==> phys[old(free)[0]] == ZeroPage()
      ensures forall q: nat | old(Taken(q)) :: q < |phys| && phys[q] == old(phys)[q]
    {
      hide Shape, Counted, IsChain, Mappers, Pte, Pde;
      assert free[0] !in Lost();
      var p := PageAlloc(true);
      assert old(Pde(Snap(), l.e, l.d)) == Pde(Snap(), l.e, l.d);
      r := PageInsert(p.value, l, Word(0, perm));
    }

    /** `env_page_alloc`.  When page_insert fails the page just allocated is lost. */
    method EnvPageAlloc(l: Loc, perm: Word) returns (r: int)
      requires Valid() && InRange(Snap(), l)
      modifies `phys, `refs, `link, `freeHead, `free, `kind
      ensures Valid() && pgdir == old(pgdir) && |phys| == |old(phys)|
      ensures r == if perm.frame != 0 || !(perm.flags <= PTE_SYSCALL && P in perm.flags && U in perm.flags) then E_INVAL
                   else if |old(free)| < (if old(Pde(Snap(), l.e, l.d)) == NULL then 2 else 1) then E_NO_MEM
                   else E_OK
      ensures r == E_INVAL || old(free) == [] ==> unchanged(this)
      ensures r == E_NO_MEM ==> free == []
      ensures r == E_NO_MEM && old(free) != [] ==>
                SameAddressSpaces(old(Snap()), Snap()) && Lost() == old(Lost()) + {old(free)[0]}
      ensures r == E_OK ==> Updated(old(Snap()), Snap(), l, Word(old(free)[0], perm.flags)) && Lost() == old(Lost())
      ensures r == E_OK ==> phys[old(free)[0]] == ZeroPage()
      ensures forall q: nat | old(Taken(q)) :: q < |phys| && phys[q] == old(phys)[q]
    {
      if perm.frame != 0 || !(perm.flags <= PTE_SYSCALL) || P !in perm.flags || U !in perm.flags {
        return E_INVAL;
      }
      assert freeHead == None <==> free == [];
      hide Shape, Counted, IsChain, Mappers, Pte, Pde;
      if freeHead == None {
        return E_NO_MEM;
      }
      assert perm.flags + {P} == perm.flags;
      r := AllocThenInsert(l, perm.flags);
    }

    /** `env_page_map`.  The only check on `perm` is that it does not add write access, so it is up
        to the caller that it names no other page: the tables stay right exactly if it does not. */
    method EnvPageMap(src: Loc, dst: Loc, perm: Word) returns (r: int)
      requires Valid() && InRange(Snap(), src) && InRange(Snap(), dst)
      modifies `phys, `refs, `link, `freeHead, `free, `kind
      ensures Valid() <==> r != E_OK || Or(old(Pte(Snap(), src)).frame, perm.frame) == old(Pte(Snap(), src)).frame
      ensures pgdir == old(pgdir) && |phys| == |old(phys)| && Lost() == old(Lost())
      ensures r == if old(Pte(Snap(), src)) == NULL || (W in perm.flags && W !in old(Pte(Snap(), src)).flags) then E_INVAL
                   else if old(Pde(Snap(), dst.e, dst.d)) == NULL && old(free) == [] then E_NO_MEM
                   else E_OK
      ensures r != E_OK ==> unchanged(this)
      ensures r == E_OK ==> Updated(old(Snap()), Snap(), dst, Entry(old(Pte(Snap(), src)).frame, perm))
      ensures forall q: nat | old(Taken(q)) :: q < |phys| && phys[q] == old(phys)[q]
    {
      hide Counted, IsChain, Mappers, Or;
      var page := PageLookup(src, None);
      if page == None {
        return E_INVAL;
      }
      if W in perm.flags && W !in page.value.flags {
        return E_INVAL;
      }
      MappedPageIsCounted(Snap(), None, src);
      r := PageInsert(page.value.frame, dst, perm);
    }

    /** User code stores a word; the processor allows it only through a writable entry. */
    method Store(l: Loc, i: nat, x: Word)
      requires Valid() && W in Pte(Snap(), l).flags && i < NENTRIES
      modifies `phys
      ensures Valid() && SameAddressSpaces(old(Snap()), Snap()) && Lost() == old(Lost())
      ensures var p := old(Pte(Snap(), l)).frame;
              p < |old(phys)| && phys == old(phys)[p := phys[p]] && phys[p] == old(phys)[p][i := x]
    {
      hide Shape, Counted, IsChain, Mappers;
      MappedPageIsCounted(Snap(), None, l);
      DirectoryWords(Snap(), l.e, l.d);
      TableWords(Snap(), l.e, l.d, l.t);
      hide Pte, Pde;
      var p := phys[phys[pgdir[l.e]][l.d].frame][l.t].frame;
      ghost var after := Snap().(phys := phys[p := phys[p][i := x]]);
      DataWritesNeverReachPageTables(Snap(), p, phys[p][i := x]);
      SameAddressSpacesSameCounts(Snap(), after, None);
      phys := phys[p := phys[p][i := x]];
      assert Snap() == after;
    }

    /** A directory for a new environment: the kernel's entries above UTOP, nothing below. */
    method EnvSetupVm(e: nat, kernPgdir: seq<Word>) returns (r: int)
      requires Valid() && e !in pgdir && EmptyBelowUtop(kernPgdir)
      modifies `phys, `refs, `link, `freeHead, `free, `kind, `pgdir
      ensures Valid() && SameAddressSpaces(old(Snap()), Snap()) && Lost() == old(Lost())
      ensures r == if old(free) == [] then E_NO_MEM else E_OK
      ensures r == E_NO_MEM ==> unchanged(this)
      ensures |phys| == |old(phys)|
      ensures r == E_OK ==> pgdir == old(pgdir)[e := old(free)[0]] && free == old(free)[1..]
      ensures forall q: nat | old(Taken(q)) :: Taken(q) && phys[q] == old(phys)[q] && refs[q] == old(refs)[q]
    {
      hide Shape, IsChain, Mappers, Pte, Pde;
      assert free != [] ==> free[0] !in Lost();
      var page := PageAlloc(true);
      if page == None {
        return E_NO_MEM;
      }
      var p := page.value;
      var words := kernPgdir[UVPT := Word(p, {P, U})];
      ghost var after := AddRoot(Snap(), e, p, words);
      assert p in Lost();
      AddRootIsExact(Snap(), e, p, words);
      hide Counted;
      pgdir := pgdir[e := p];
      phys := phys[p := words];
      refs := refs[p := refs[p] + 1];
      kind := kind[p := Root(e)];
      assert Snap() == after;
      r := E_OK;
    }

    /** The inner loop of env_free: unmap every entry of one page table. */
    method ClearTable(e: nat, d: nat, pa: nat)
      requires Valid() && e in pgdir && d < NPDE && Pde(Snap(), e, d) != NULL && pa == Pde(Snap(), e, d).frame
      modifies `phys, `refs, `link, `freeHead, `free, `kind
      ensures Valid() && pgdir == old(pgdir) && kind == old(kind) && Lost() == old(Lost()) && |phys| == |old(phys)|
      ensures forall b, c :: Pde(Snap(), b, c) == old(Pde(Snap(), b, c))
      ensures forall x: Loc | x.e != e :: Pte(Snap(), x) == old(Pte(Snap(), x))
      ensures forall c | 0 <= c < NENTRIES :: Pte(Snap(), Loc(e, d, c)) == NULL
      ensures forall q: nat | q < |phys| && kind[q].Data? :: phys[q] == old(phys)[q]
    {
      hide Shape, Counted, IsChain, Mappers, Unmap, Pte, Pde;
      for t := 0 to NENTRIES
        invariant Valid() && pgdir == old(pgdir) && kind == old(kind) && Lost() == old(Lost()) && |phys| == |old(phys)|
        invariant forall b, c :: Pde(Snap(), b, c) == old(Pde(Snap(), b, c))
        invariant forall x: Loc | x.e != e :: Pte(Snap(), x) == old(Pte(Snap(), x))
        invariant forall c | 0 <= c < t :: Pte(Snap(), Loc(e, d, c)) == NULL
        invariant forall q: nat | q < |phys| && kind[q].Data? :: phys[q] == old(phys)[q]
      {
        TableWords(Snap(), e, d, t);
        if P in phys[pa][t].flags {
          PageRemove(Loc(e, d, t), None);
        }
      }
    }

    /** `e->env_pgdir[pdeno] = 0` and the release of the emptied table. */
    method FreeTable(e: nat, d: nat, pa: nat)
      requires Valid() && e in pgdir && d < NPDE && Pde(Snap(), e, d) != NULL && pa == Pde(Snap(), e, d).frame
      requires forall t | 0 <= t < NENTRIES :: Pte(Snap(), Loc(e, d, t)) == NULL
      modifies `phys, `refs, `link, `freeHead, `free, `kind
      ensures Valid() && Snap() == DropTable(old(Snap()), e, d) && Lost() == old(Lost())
      ensures SameAddressSpaces(old(Snap()), Snap())
      ensures |kind| == |old(kind)| == |phys| == |old(phys)|
      ensures forall b, c :: Pde(Snap(), b, c) == if b == e && c == d then NULL else old(Pde(Snap(), b, c))
      ensures forall q: nat | q < |phys| && old(kind)[q].Data? :: kind[q].Data? && phys[q] == old(phys)[q]
    {
      hide Shape, Counted, IsChain, Mappers, Pte, Pde, DropTable;
      DropTableIsExact(Snap(), e, d);
      ghost var after := DropTable(Snap(), e, d);
      assert pa !in free && refs[pa] == 1;
      PageDecref(pa);
      phys := phys[pgdir[e] := phys[pgdir[e]][d := NULL]];
      kind := kind[pa := Data];
      assert Snap() == after;
    }

    /** The last lines of env_free: give up the page directory. */
    method FreeDirectory(e: nat)
      requires Valid() && e in pgdir && forall d | 0 <= d < NPDE :: Pde(Snap(), e, d) == NULL
      modifies `refs, `link, `freeHead, `free, `kind, `pgdir
      ensures Valid() && Snap() == DropRoot(old(Snap()), e) && Lost() == old(Lost())
      ensures SameAddressSpaces(old(Snap()), Snap()) && pgdir == old(pgdir) - {e}
      ensures |kind| == |old(kind)| && forall q: nat | q < |kind| && old(kind)[q].Data? :: kind[q].Data?
    {
      hide Shape, Counted, IsChain, Mappers, Pte, Pde, DropRoot;
      DropRootIsExact(Snap(), e);
      ghost var after := DropRoot(Snap(), e);
      var pa := pgdir[e];
      assert pa !in free && refs[pa] == 1;
      pgdir := pgdir - {e};
      PageDecref(pa);
      kind := kind[pa := Data];
      assert Snap() == after;
    }

    /** Everything the environment maps is dropped, then its tables and its directory. */
    method EnvFree(e: nat)
      requires Valid() && e in pgdir
      modifies `phys, `refs, `link, `freeHead, `free, `kind, `pgdir
      ensures Valid() && pgdir == old(pgdir) - {e} && Lost() == old(Lost())
      ensures forall x: Loc :: Pte(Snap(), x) == if x.e == e then NULL else old(Pte(Snap(), x))
      ensures |kind| == |phys| == |old(phys)| == |old(kind)|
      ensures forall q: nat | q < |phys| && old(kind)[q].Data? :: kind[q].Data? && phys[q] == old(phys)[q]
    {
      hide Shape, Counted, IsChain, Mappers, Pte, Pde, DropTable, DropRoot;
      for d := 0 to NPDE
        invariant Valid() && pgdir == old(pgdir) && Lost() == old(Lost())
        invariant |kind| == |phys| == |old(phys)| == |old(kind)|
        invariant forall x: Loc | x.e != e :: Pte(Snap(), x) == old(Pte(Snap(), x))
        invariant forall c | 0 <= c < d :: Pde(Snap(), e, c) == NULL
        invariant forall q: nat | q < |phys| && old(kind)[q].Data? :: kind[q].Data? && phys[q] == old(phys)[q]
      {
        DirectoryWords(Snap(), e, d);
        var pde := phys[pgdir[e]][d];
        if P in pde.flags {
          ClearTable(e, d, pde.frame);
          FreeTable(e, d, pde.frame);
        }
      }
      EmptyDirectoryMapsNothing(Snap(), e);
      FreeDirectory(e);
    }
  }
}
