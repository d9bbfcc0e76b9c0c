/** Directory entries of fs.c: records of fixed size in the bytes of a directory, and the finite
    map from names to inodes that they stand for. */
module Dentries {
  const ENTRY: nat := 264          // sizeof(dentry_t)
  const NUMBER: nat := 8           // sizeof(ino_t)
  const MAX_FILE_NAME: nat := 256
  const PER_BLOCK: nat := 124      // whole entries in a block

  const DOT: seq<int> := [46]
  const DOTDOT: seq<int> := [46, 46]

  /** One entry; the inode number 0 marks it free. */
  datatype Slot = Slot(ino: int, name: seq<int>)

  predicate IsName(s: seq<int>) {
    |s| < MAX_FILE_NAME && 0 !in s
  }

  // ---------------------------------------------------------------- bytes

  /** The string that starts at a character pointer. */
  function CString(s: seq<int>): seq<int> {
    if |s| == 0 || s[0] == 0 then [] else [s[0]] + CString(s[1..])
  }

  lemma {:induction false} CStringOf(name: seq<int>, rest: seq<int>)
    requires 0 !in name
    ensures CString(name + [0] + rest) == name
  {
    var s := name + [0] + rest;
    if |name| > 0 {
      assert s[1..] == name[1..] + [0] + rest;
      CStringOf(name[1..], rest);
    }
  }

  /** A little-endian number of eight bytes. */
  function InoOf(s: seq<int>): int
    requires |s| == NUMBER
  {
    s[0] + 0x100 * s[1] + 0x1_0000 * s[2] + 0x100_0000 * s[3] + 0x1_0000_0000 * s[4]
    + 0x100_0000_0000 * s[5] + 0x1_0000_0000_0000 * s[6] + 0x100_0000_0000_0000 * s[7]
  }

  function InoBytes(n: nat): (s: seq<int>)
    requires n < 0x1_0000
    ensures |s| == NUMBER && InoOf(s) == n && forall b | b in s :: 0 <= b < 0x100
  {
    [n % 0x100, n / 0x100, 0, 0, 0, 0, 0, 0]
  }

  function Zeros(n: nat): seq<int> {
    seq(n, _ => 0)
  }

  /** A dentry_t as its initializer and strcpy leave it. */
  function EntryBytes(ino: nat, name: seq<int>): (s: seq<int>)
    requires ino < 0x1_0000 && IsName(name)
    ensures |s| == ENTRY
  {
    InoBytes(ino) + name + Zeros(MAX_FILE_NAME - |name|)
  }

  function SlotOf(e: seq<int>): Slot
    requires |e| == ENTRY
  {
    Slot(InoOf(e[..NUMBER]), CString(e[NUMBER..]))
  }

  /** `text` stored at `at`. */
  function Patch(bytes: seq<int>, at: nat, text: seq<int>): (s: seq<int>)
    requires at + |text| <= |bytes|
    ensures |s| == |bytes|
  {
    bytes[..at] + text + bytes[at + |text|..]
  }

  lemma EntryRoundTrip(ino: nat, name: seq<int>)
    requires ino < 0x1_0000 && IsName(name)
    ensures SlotOf(EntryBytes(ino, name)) == Slot(ino, name)
  {
    var e := EntryBytes(ino, name);
    assert e[..NUMBER] == InoBytes(ino);
    var rest := Zeros(MAX_FILE_NAME - |name| - 1);
    assert e[NUMBER..] == name + [0] + rest;
    CStringOf(name, rest);
  }

  /** What insert_direntry_if_free stores: strcpy stops at the terminator, what follows is old. */
  function InsertBytes(ino: nat, name: seq<int>): (s: seq<int>)
    requires ino < 0x1_0000 && IsName(name)
    ensures |s| == NUMBER + |name| + 1 <= ENTRY
  {
    InoBytes(ino) + name + [0]
  }

  lemma InsertRoundTrip(e: seq<int>, ino: nat, name: seq<int>)
    requires |e| == ENTRY && ino < 0x1_0000 && IsName(name)
    ensures SlotOf(Patch(e, 0, InsertBytes(ino, name))) == Slot(ino, name)
  {
    var p := Patch(e, 0, InsertBytes(ino, name));
    assert p[..NUMBER] == InoBytes(ino);
    var rest := e[NUMBER + |name| + 1..];
    assert p[NUMBER..] == name + [0] + rest;
    CStringOf(name, rest);
  }

  lemma RemoveRoundTrip(e: seq<int>)
    requires |e| == ENTRY
    ensures SlotOf(Patch(e, 0, InoBytes(0))) == Slot(0, SlotOf(e).name)
  {
    var p := Patch(e, 0, InoBytes(0));
    assert p[..NUMBER] == InoBytes(0);
    assert p[NUMBER..] == e[NUMBER..];
  }

  /** The entries of a directory of these bytes. */
  function Entries(bytes: seq<int>): (slots: seq<Slot>)
    ensures |slots| == |bytes| / ENTRY
  {
    seq(|bytes| / ENTRY, k requires 0 <= k < |bytes| / ENTRY => SlotOf(bytes[k * ENTRY..k * ENTRY + ENTRY]))
  }

  lemma EntriesAfterAppend(bytes: seq<int>, ino: nat, name: seq<int>)
    requires |bytes| % ENTRY == 0 && ino < 0x1_0000 && IsName(name)
    ensures Entries(bytes + EntryBytes(ino, name)) == Entries(bytes) + [Slot(ino, name)]
  {
    var all, n := bytes + EntryBytes(ino, name), |bytes| / ENTRY;
    EntryRoundTrip(ino, name);
    assert n * ENTRY == |bytes| && |all| == (n + 1) * ENTRY;
    forall k: nat | k < n + 1
      ensures SlotOf(all[k * ENTRY..k * ENTRY + ENTRY]) == (Entries(bytes) + [Slot(ino, name)])[k]
    {
      if k < n {
        assert all[k * ENTRY..k * ENTRY + ENTRY] == bytes[k * ENTRY..k * ENTRY + ENTRY];
      } else {
        assert all[k * ENTRY..k * ENTRY + ENTRY] == EntryBytes(ino, name);
      }
    }
    EntriesAre(all, Entries(bytes) + [Slot(ino, name)]);
  }

  lemma PatchOutside(bytes: seq<int>, at: nat, text: seq<int>, lo: nat, hi: nat)
    requires at + |text| <= |bytes| && lo <= hi <= |bytes| && (hi <= at || at + |text| <= lo)
    ensures Patch(bytes, at, text)[lo..hi] == bytes[lo..hi]
  {
    var whole := Patch(bytes, at, text);
    assert forall k: nat | lo <= k < hi :: whole[k] == bytes[k];
  }

  lemma PatchInside(bytes: seq<int>, at: nat, text: seq<int>, hi: nat)
    requires at + |text| <= hi <= |bytes|
    ensures Patch(bytes, at, text)[at..hi] == Patch(bytes[at..hi], 0, text)
  {
    var whole, part := Patch(bytes, at, text), Patch(bytes[at..hi], 0, text);
    forall k: nat | k < hi - at
      ensures whole[at..hi][k] == part[k]
    {
      assert whole[at..hi][k] == whole[at + k];
      assert k >= |text| ==> part[k] == bytes[at..hi][k];
    }
  }

  lemma EntriesAre(bytes: seq<int>, slots: seq<Slot>)
    requires |slots| == |bytes| / ENTRY
    requires forall k: nat | k < |slots| :: SlotOf(bytes[k * ENTRY..k * ENTRY + ENTRY]) == slots[k]
    ensures Entries(bytes) == slots
  {
  }

  /** The entry behind the last one that fits a block: iterate_over_dir looks for it where the next
      block begins, 32 bytes after its start, and does not find it there. */
  lemma StraddlingEntryIsNotFound(e: seq<int>, ino: nat, name: seq<int>)
    requires |e| == ENTRY && ino < 0x1_0000 && IsName(name)
    requires e[..ENTRY - 32] == EntryBytes(ino, name)[32..]
    ensures Hit(Named(name), SlotOf(e)) == 0
  {
    var whole, tail := EntryBytes(ino, name), e[NUMBER..];
    assert forall k: nat | k < ENTRY - 32 :: e[k] == e[..ENTRY - 32][k] == whole[k + 32];
    assert forall k: nat | NUMBER <= k < ENTRY :: whole[k] == if k < NUMBER + |name| then name[k - NUMBER] else 0;
    if |name| <= 32 {
      assert tail[0] == 0;
      assert CString(tail) == [];
      if |name| == 0 {
        assert forall k: nat | k < NUMBER :: e[k] == 0;
      }
    } else {
      var rest := tail[|name| - 32 + 1..];
      assert tail == name[32..] + [0] + rest;
      CStringOf(name[32..], rest);
    }
  }

  // ---------------------------------------------------------------- callbacks

  /** What iterate_over_dir is asked to find: a name, a free entry, or anything but the dots. */
  datatype Query = Named(name: seq<int>) | Free | AnyFile

  /** What the callback returns for an entry; 0 goes on. */
  function Hit(q: Query, s: Slot): int {
    match q
    case Named(name) => if s.ino != 0 && s.name == name then s.ino else 0
    case Free => if s.ino == 0 then 1 else 0
    case AnyFile => if s.ino == 0 || s.name == DOT || s.name == DOTDOT then 0 else s.ino
  }

  /** The first entry hit, or the number of entries. */
  function First(slots: seq<Slot>, q: Query): (k: nat)
    ensures k <= |slots| && (k < |slots| ==> Hit(q, slots[k]) != 0)
    ensures forall i: nat | i < k :: Hit(q, slots[i]) == 0
  {
    if |slots| == 0 then 0
    else if Hit(q, slots[0]) != 0 then 0
    else
      var r := First(slots[1..], q);
      assert forall i: nat | 0 < i < r + 1 :: slots[i] == slots[1..][i - 1];
      r + 1
  }

  lemma FirstIs(slots: seq<Slot>, q: Query, k: nat)
    requires k <= |slots| && (k < |slots| ==> Hit(q, slots[k]) != 0) && forall i: nat | i < k :: Hit(q, slots[i]) == 0
    ensures First(slots, q) == k
  {
    if First(slots, q) < k {
      assert false;
    }
  }

  function Lookup(slots: seq<Slot>, name: seq<int>): int {
    var k := First(slots, Named(name));
    if k < |slots| then slots[k].ino else 0
  }

  /** There is a free entry, or the next one still fits the first block. */
  predicate HasSlot(slots: seq<Slot>) {
    |slots| < PER_BLOCK || First(slots, Free) < |slots|
  }

  /** A free entry is used again before the directory grows. */
  function Insert(slots: seq<Slot>, ino: int, name: seq<int>): seq<Slot> {
    var k := First(slots, Free);
    if k < |slots| then slots[k := Slot(ino, name)] else slots + [Slot(ino, name)]
  }

  /** Which entry that is: the first whose number is 0, if there is one, and otherwise a new one behind
      the others. */
  lemma InsertTakesFirstFree(slots: seq<Slot>, ino: int, name: seq<int>, k: nat)
    requires k <= |slots| && (k < |slots| ==> slots[k].ino == 0) && forall i: nat | i < k :: slots[i].ino != 0
    ensures Insert(slots, ino, name) == slots[..k] + [Slot(ino, name)] + (if k < |slots| then slots[k + 1..] else [])
    ensures HasSlot(slots) <==> |slots| < PER_BLOCK || exists i: nat :: i < |slots| && slots[i].ino == 0
  {
    assert forall i: nat | i < k :: Hit(Free, slots[i]) == 0;
    FirstIs(slots, Free, k);
    if k < |slots| {
      assert slots == slots[..k] + [slots[k]] + slots[k + 1..];
    }
  }

  function Erase(slots: seq<Slot>, name: seq<int>): seq<Slot> {
    var k := First(slots, Named(name));
    if k < |slots| then slots[k := Slot(0, slots[k].name)] else slots
  }

  // ---------------------------------------------------------------- a directory is a map

  ghost predicate Unique(slots: seq<Slot>) {
    forall i: nat, k: nat | i < |slots| && k < |slots| && slots[i].ino != 0 && slots[k].ino != 0 && slots[i].name == slots[k].name :: i == k
  }

  ghost function Contents(slots: seq<Slot>): map<seq<int>, int> {
    map s | s in slots && s.ino != 0 :: s.name := Lookup(slots, s.name)
  }

  lemma LookupIsLive(slots: seq<Slot>, k: nat)
    requires Unique(slots) && k < |slots| && slots[k].ino != 0
    ensures Lookup(slots, slots[k].name) == slots[k].ino && First(slots, Named(slots[k].name)) == k
  {
    FirstIs(slots, Named(slots[k].name), k);
  }

  lemma LookupFinds(slots: seq<Slot>, name: seq<int>)
    ensures Lookup(slots, name) != 0 <==> exists k: nat :: k < |slots| && slots[k].ino != 0 && slots[k].name == name
  {
    var k := First(slots, Named(name));
    if k < |slots| {
      assert slots[k].ino != 0 && slots[k].name == name;
    } else {
      forall i: nat | i < |slots| && slots[i].name == name
        ensures slots[i].ino == 0
      {
        assert Hit(Named(name), slots[i]) == 0;
      }
    }
  }

  lemma LookupIsMap(slots: seq<Slot>, name: seq<int>)
    ensures Lookup(slots, name) == if name in Contents(slots) then Contents(slots)[name] else 0
    ensures name in Contents(slots) <==> Lookup(slots, name) != 0
  {
    LookupFinds(slots, name);
  }

  lemma LookupAfterInsert(slots: seq<Slot>, ino: int, name: seq<int>, n: seq<int>)
    requires ino != 0 && Lookup(slots, name) == 0
    ensures Lookup(Insert(slots, ino, name), n) == if n == name then ino else Lookup(slots, n)
  {
    var f, k := First(slots, Free), First(slots, Named(n));
    var more := Insert(slots, ino, name);
    LookupFinds(slots, name);
    if n == name {
      FirstIs(more, Named(n), f);
    } else if k < |slots| {
      FirstIs(more, Named(n), k);
    } else {
      FirstIs(more, Named(n), |more|);
    }
  }

  lemma LookupAfterErase(slots: seq<Slot>, name: seq<int>, n: seq<int>)
    requires Unique(slots)
    ensures Lookup(Erase(slots, name), n) == if n == name then 0 else Lookup(slots, n)
  {
    var f, k := First(slots, Named(name)), First(slots, Named(n));
    var less := Erase(slots, name);
    if n == name {
      FirstIs(less, Named(n), |less|);
    } else {
      FirstIs(less, Named(n), k);
    }
  }

  lemma InsertKeepsUnique(slots: seq<Slot>, ino: int, name: seq<int>)
    requires Unique(slots) && Lookup(slots, name) == 0
    ensures Unique(Insert(slots, ino, name))
  {
    LookupFinds(slots, name);
    hide First, Lookup;
  }

  /** Inserting a new name is adding it to the map, whether or not a freed entry is used again. */
  lemma InsertIsMap(slots: seq<Slot>, ino: int, name: seq<int>)
    requires Unique(slots) && ino != 0 && Lookup(slots, name) == 0
    ensures Unique(Insert(slots, ino, name))
    ensures Contents(Insert(slots, ino, name)) == Contents(slots)[name := ino]
  {
    hide Lookup, Contents, Insert, Unique;
    var more := Insert(slots, ino, name);
    InsertKeepsUnique(slots, ino, name);
    forall n: seq<int>
      ensures n in Contents(more) <==> n == name || n in Contents(slots)
      ensures n in Contents(more) ==> Contents(more)[n] == Contents(slots)[name := ino][n]
    {
      LookupAfterInsert(slots, ino, name, n);
      LookupIsMap(slots, n);
      LookupIsMap(more, n);
    }
  }

  lemma EraseKeepsUnique(slots: seq<Slot>, name: seq<int>)
    requires Unique(slots)
    ensures Unique(Erase(slots, name))
  {
    hide First;
  }

  /** Removing a name hides no other. */
  lemma EraseIsMap(slots: seq<Slot>, name: seq<int>)
    requires Unique(slots)
    ensures Unique(Erase(slots, name))
    ensures Contents(Erase(slots, name)) == Contents(slots) - {name}
  {
    hide Lookup, Contents, Erase, Unique;
    var less := Erase(slots, name);
    EraseKeepsUnique(slots, name);
    forall n: seq<int>
      ensures n in Contents(less) <==> n != name && n in Contents(slots)
      ensures n in Contents(less) ==> Contents(less)[n] == Contents(slots)[n]
    {
      LookupAfterErase(slots, name, n);
      LookupIsMap(slots, n);
      LookupIsMap(less, n);
    }
  }
}
