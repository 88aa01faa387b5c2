/**
 Four-level x86-64 page tables (section 4.5 of the Intel SDM, volume 3A) as a tree of
 512-entry tables in physical memory, and what writing one entry does to every translation.
 */
module PageTable {
  import opened PhysMem

  const PAGE_TABLE_ADDRESS_MASK: bv64 := 0xFFF0000000000FFF
  const PAGE_FLAG_PRESENT: bv64 := 1
  const PAGE_DIRECTORY_SIZE_BIT: bv64 := 0x80
  const PAGE_TABLE_NX_BIT: bv64 := 0x8000000000000000
  /** MAP_NEWMAP | MAP_USER | MAP_KERNEL | MAP_READABLE | MAP_EXECUTABLE | MAP_WRITABLE */
  const NEW_PAGE_TABLE_FLAGS: bv64 := 7

  // ---- Entries

  function Address(e: bv64): bv64 {
    e & !PAGE_TABLE_ADDRESS_MASK
  }

  predicate Present(e: bv64) {
    e & PAGE_FLAG_PRESENT != 0
  }

  predicate Large(e: bv64) {
    e & PAGE_DIRECTORY_SIZE_BIT != 0
  }

  /** A table pointer that restricts nothing: present, writable, user and executable. */
  predicate Open(e: bv64) {
    e & (PAGE_TABLE_NX_BIT | 7) == 7
  }

  /** The physical address of entry `i` of the table at `t`. */
  function Slot(t: bv64, i: bv64): bv64 {
    t + i * 8
  }

  function Pml4Index(va: bv64): (i: bv64) ensures i < 512 { (va >> 39) & 0x1ff }
  function Pml3Index(va: bv64): (i: bv64) ensures i < 512 { (va >> 30) & 0x1ff }
  function Pml2Index(va: bv64): (i: bv64) ensures i < 512 { (va >> 21) & 0x1ff }
  function Pml1Index(va: bv64): (i: bv64) ensures i < 512 { (va >> 12) & 0x1ff }

  /** Both addresses lie in the same 2 MiB (4 KiB) page of the 48-bit virtual address space. */
  predicate SameLargePage(va: bv64, va': bv64) {
    Pml4Index(va) == Pml4Index(va') && Pml3Index(va) == Pml3Index(va') && Pml2Index(va) == Pml2Index(va')
  }

  predicate SamePage(va: bv64, va': bv64) {
    SameLargePage(va, va') && Pml1Index(va) == Pml1Index(va')
  }

  // ---- The processor's walk

  function E4(m: Memory, root: bv64, va: bv64): bv64 { Read(m, Slot(root, Pml4Index(va))) }
  function E3(m: Memory, root: bv64, va: bv64): bv64 { Read(m, Slot(Address(E4(m, root, va)), Pml3Index(va))) }
  function E2(m: Memory, root: bv64, va: bv64): bv64 { Read(m, Slot(Address(E3(m, root, va)), Pml2Index(va))) }
  function E1(m: Memory, root: bv64, va: bv64): bv64 { Read(m, Slot(Address(E2(m, root, va)), Pml1Index(va))) }

  /**
   The outcome of a walk: the leaf entry, the size of the page it maps, and the access rights
   that all the entries on the way grant together.
   */
  datatype Translation = Unmapped | Mapped(shift: nat, entry: bv64, rights: bv64)

  /** Writable and user only if every entry says so; no-execute if any entry says so. */
  function Rights(all: bv64, any: bv64): bv64 {
    (all & 6) | (any & PAGE_TABLE_NX_BIT)
  }

  /** The walk as a function of the entries it may read, one per level. */
  function WalkOf(e4: bv64, e3: bv64, e2: bv64, e1: bv64): Translation {
    if !Present(e4) then Unmapped
    else if !Present(e3) then Unmapped
    else if Large(e3) then Mapped(30, e3, Rights(e4 & e3, e4 | e3))
    else if !Present(e2) then Unmapped
    else if Large(e2) then Mapped(21, e2, Rights(e4 & e3 & e2, e4 | e3 | e2))
    else if !Present(e1) then Unmapped
    else Mapped(12, e1, Rights(e4 & e3 & e2 & e1, e4 | e3 | e2 | e1))
  }

  function Walk(m: Memory, root: bv64, va: bv64): Translation {
    WalkOf(E4(m, root, va), E3(m, root, va), E2(m, root, va), E1(m, root, va))
  }

  /** What a walk ends in when `e` is the leaf entry and only `e` restricts the access. */
  function Leaf(shift: nat, e: bv64): Translation {
    if Present(e) then Mapped(shift, e, Rights(e, e)) else Unmapped
  }

  // ---- The tree

  /** A frame that serves as a table: its level, and the only entry that may point to it. */
  datatype TableInfo = TableInfo(level: nat, owner: bv64, index: bv64)
  type Tables = map<Addr, TableInfo>

  ghost predicate PointsTo(T: Tables, e: bv64, info: TableInfo) {
    At(Address(e)) in T && T[At(Address(e))] == info && Open(e)
  }

  /** At this level the processor takes `e` for a pointer to the next table. */
  ghost predicate IsPointer(level: nat, e: bv64) {
    level >= 2 && Present(e) && (level == 2 ==> !Large(e))
  }

  /** What entry `i` of table `t` may hold. */
  ghost predicate EntryOk(T: Tables, level: nat, t: bv64, i: bv64, e: bv64) {
    IsPointer(level, e) ==> !Large(e) && PointsTo(T, e, TableInfo(level - 1, t, i))
  }

  ghost predicate TablesOk(root: bv64, T: Tables) {
    && At(root) in T && T[At(root)].level == 4
    && (forall a :: a in T ==> IsFrame(a.byte) && a.byte != 0 && 1 <= T[a].level <= 4)
  }

  ghost predicate EntriesOk(m: Memory, T: Tables) {
    forall a, i: bv64 :: a in T && i < 512 ==> EntryOk(T, T[a].level, a.byte, i, Read(m, Slot(a.byte, i)))
  }

  /** Every table is reached through one entry only, and every table pointer leads to a table. */
  ghost predicate Tree(m: Memory, root: bv64, T: Tables) {
    TablesOk(root, T) && EntriesOk(m, T)
  }

  /** A 2 MiB page lies on the way to `va`. */
  ghost predicate LargeOnPath(m: Memory, root: bv64, va: bv64) {
    && Present(E4(m, root, va)) && Present(E3(m, root, va))
    && Present(E2(m, root, va)) && Large(E2(m, root, va))
  }

  // ---- Slots

  lemma SlotInjective(t: bv64, i: bv64, t': bv64, i': bv64)
    requires IsFrame(t) && IsFrame(t') && i < 512 && i' < 512
    requires Slot(t, i) == Slot(t', i')
    ensures t == t' && i == i'
  {}

  lemma SlotInFrame(t: bv64, i: bv64)
    requires IsFrame(t) && i < 512
    ensures FrameOf(Slot(t, i)) == t
  {}

  lemma WriteMisses(m: Memory, t: bv64, i: bv64, v: bv64, t': bv64, i': bv64)
    requires IsFrame(t) && IsFrame(t') && i < 512 && i' < 512
    requires t != t' || i != i'
    ensures Read(Write(m, Slot(t, i), v), Slot(t', i')) == Read(m, Slot(t', i'))
  {
    if Slot(t, i) == Slot(t', i') {
      SlotInjective(t, i, t', i');
    }
  }

  lemma ZeroMisses(m: Memory, f: bv64, t: bv64, i: bv64)
    requires IsFrame(t) && i < 512 && t != f
    ensures Read(ZeroFrame(m, f), Slot(t, i)) == Read(m, Slot(t, i))
  {
    SlotInFrame(t, i);
    ReadZeroed(m, f, Slot(t, i));
  }

  lemma ZeroHits(m: Memory, f: bv64, i: bv64)
    requires IsFrame(f) && i < 512
    ensures Read(ZeroFrame(m, f), Slot(f, i)) == 0
  {
    SlotInFrame(f, i);
    ReadZeroed(m, f, Slot(f, i));
  }

  // ---- Masks

  /** The bits of an entry: present is bit 0 and size bit 7. */
  lemma EntryBits(e: bv64)
    ensures Present(e) <==> e & 0x1 != 0
    ensures Large(e) <==> e & 0x80 != 0
  {}

  /** The frame is bits 12 to 51. */
  lemma FrameBits(e: bv64)
    ensures Address(e) == e & 0x000F_FFFF_FFFF_F000
  {}

  /** An open entry: present 0, writable 1, user 2, and not no-execute 63. */
  lemma OpenBits(e: bv64)
    ensures Open(e) <==> e & 0x1 != 0 && e & 0x2 != 0 && e & 0x4 != 0 && e & 0x8000_0000_0000_0000 == 0
    ensures NEW_PAGE_TABLE_FLAGS == 0x1 | 0x2 | 0x4
  {}

  /** Marking an entry large sets that bit alone. */
  lemma LargeBit(e: bv64)
    ensures Large(e | PAGE_DIRECTORY_SIZE_BIT)
    ensures (e | PAGE_DIRECTORY_SIZE_BIT) & 0xFFFF_FFFF_FFFF_FF7F == e & 0xFFFF_FFFF_FFFF_FF7F
  {}

  /** Two of the rights are granted together by all the entries, the third is withheld by any. */
  lemma RightsBits(e: bv64, f: bv64)
    ensures Rights(e & f, e | f) & 0x2 == 0x2 <==> e & 0x2 == 0x2 && f & 0x2 == 0x2
    ensures Rights(e & f, e | f) & 0x4 == 0x4 <==> e & 0x4 == 0x4 && f & 0x4 == 0x4
    ensures Rights(e & f, e | f) & 0x8000_0000_0000_0000 == 0 <==>
            e & 0x8000_0000_0000_0000 == 0 && f & 0x8000_0000_0000_0000 == 0
    ensures Rights(e & f, e | f) & 0x7FFF_FFFF_FFFF_FFF9 == 0
  {}

  lemma NewTableEntry(f: bv64)
    requires IsFrame(f)
    ensures var e := f | NEW_PAGE_TABLE_FLAGS;
            Address(e) == f && Present(e) && !Large(e) && Open(e)
  {}

  // With no stray bits, a leaf entry gives back exactly the frame and the flags it was built from.
  lemma LeafEntryExact(pa: bv64, flags: bv64)
    requires IsFrame(pa) && flags & !PAGE_TABLE_ADDRESS_MASK == 0
    ensures var e := Address(pa) | flags;
            Address(e) == pa && e & PAGE_TABLE_ADDRESS_MASK == flags
  {}

  lemma OpenRights(e4: bv64, e3: bv64, e2: bv64, e: bv64)
    requires Open(e4) && Open(e3) && Open(e2)
    ensures Rights(e4 & e3 & e2 & e, e4 | e3 | e2 | e) == Rights(e, e)
    ensures Rights(e4 & e3 & e, e4 | e3 | e) == Rights(e, e)
  {}

  // ---- The path of a walk

  ghost predicate Reaches2(m: Memory, root: bv64, va: bv64) {
    Present(E4(m, root, va)) && Present(E3(m, root, va))
  }

  ghost predicate Reaches1(m: Memory, root: bv64, va: bv64) {
    Reaches2(m, root, va) && Present(E2(m, root, va)) && !Large(E2(m, root, va))
  }

  // The tables a walk visits are tables of the tree, one level below each other.
  lemma Path3(m: Memory, root: bv64, T: Tables, va: bv64)
    requires Tree(m, root, T) && Present(E4(m, root, va))
    ensures var e4 := E4(m, root, va);
            !Large(e4) && PointsTo(T, e4, TableInfo(3, root, Pml4Index(va)))
  {
    assert EntryOk(T, T[At(root)].level, At(root).byte, Pml4Index(va), Read(m, Slot(At(root).byte, Pml4Index(va))));
  }

  lemma Path2(m: Memory, root: bv64, T: Tables, va: bv64)
    requires Tree(m, root, T) && Reaches2(m, root, va)
    ensures var e3 := E3(m, root, va);
            !Large(e3) && PointsTo(T, e3, TableInfo(2, Address(E4(m, root, va)), Pml3Index(va)))
  {
    Path3(m, root, T, va);
    var t := At(Address(E4(m, root, va)));
    assert EntryOk(T, T[t].level, t.byte, Pml3Index(va), Read(m, Slot(t.byte, Pml3Index(va))));
  }

  lemma Path1(m: Memory, root: bv64, T: Tables, va: bv64)
    requires Tree(m, root, T) && Reaches1(m, root, va)
    ensures PointsTo(T, E2(m, root, va), TableInfo(1, Address(E3(m, root, va)), Pml2Index(va)))
  {
    Path2(m, root, T, va);
    var t := At(Address(E3(m, root, va)));
    assert EntryOk(T, T[t].level, t.byte, Pml2Index(va), Read(m, Slot(t.byte, Pml2Index(va))));
  }

  // A table belongs to one range of addresses: two walks that share it share the indices above it.
  lemma SharedTable2(m: Memory, root: bv64, T: Tables, va: bv64, va': bv64)
    requires Tree(m, root, T) && Reaches2(m, root, va) && Reaches2(m, root, va')
    requires Address(E3(m, root, va)) == Address(E3(m, root, va'))
    ensures Pml4Index(va) == Pml4Index(va') && Pml3Index(va) == Pml3Index(va')
  {
    Path2(m, root, T, va);
    Path2(m, root, T, va');
    Path3(m, root, T, va);
    Path3(m, root, T, va');
  }

  lemma SharedTable1(m: Memory, root: bv64, T: Tables, va: bv64, va': bv64)
    requires Tree(m, root, T) && Reaches1(m, root, va) && Reaches1(m, root, va')
    requires Address(E2(m, root, va)) == Address(E2(m, root, va'))
    ensures SameLargePage(va, va')
  {
    Path1(m, root, T, va);
    Path1(m, root, T, va');
    SharedTable2(m, root, T, va, va');
  }

  // ---- Writing one entry

  lemma SameWalk(e4: bv64, e3: bv64, e2: bv64, e1: bv64, e3': bv64, e2': bv64, e1': bv64)
    requires Present(e4) ==> e3' == e3
    requires Present(e4) && Present(e3) ==> e2' == e2
    requires Present(e4) && Present(e3) && Present(e2) && !Large(e2) ==> e1' == e1
    ensures WalkOf(e4, e3', e2', e1') == WalkOf(e4, e3, e2, e1)
  {}

  /** The walk of `va` reads entry `i` of table `t`. */
  ghost predicate Visits(m: Memory, root: bv64, va: bv64, t: bv64, i: bv64) {
    || (root == t && Pml4Index(va) == i)
    || (Present(E4(m, root, va)) && Address(E4(m, root, va)) == t && Pml3Index(va) == i)
    || (Reaches2(m, root, va) && Address(E3(m, root, va)) == t && Pml2Index(va) == i)
    || (Reaches1(m, root, va) && Address(E2(m, root, va)) == t && Pml1Index(va) == i)
  }

  lemma UnvisitedWrite(m: Memory, root: bv64, T: Tables, t: bv64, i: bv64, v: bv64, va: bv64)
    requires Tree(m, root, T) && At(t) in T && i < 512
    requires !Visits(m, root, va, t, i)
    ensures Walk(Write(m, Slot(t, i), v), root, va) == Walk(m, root, va)
  {
    var m' := Write(m, Slot(t, i), v);
    WriteMisses(m, t, i, v, root, Pml4Index(va));
    if Present(E4(m, root, va)) {
      Path3(m, root, T, va);
      WriteMisses(m, t, i, v, Address(E4(m, root, va)), Pml3Index(va));
      if Reaches2(m, root, va) {
        Path2(m, root, T, va);
        WriteMisses(m, t, i, v, Address(E3(m, root, va)), Pml2Index(va));
        if Reaches1(m, root, va) {
          Path1(m, root, T, va);
          WriteMisses(m, t, i, v, Address(E2(m, root, va)), Pml1Index(va));
        }
      }
    }
    SameWalk(E4(m, root, va), E3(m, root, va), E2(m, root, va), E1(m, root, va),
             E3(m', root, va), E2(m', root, va), E1(m', root, va));
  }

  lemma WriteKeepsTree(m: Memory, root: bv64, T: Tables, t: bv64, i: bv64, v: bv64)
    requires Tree(m, root, T) && At(t) in T && i < 512
    requires EntryOk(T, T[At(t)].level, t, i, v)
    ensures Tree(Write(m, Slot(t, i), v), root, T)
  {
    var m' := Write(m, Slot(t, i), v);
    forall a, j: bv64 | a in T && j < 512
      ensures EntryOk(T, T[a].level, a.byte, j, Read(m', Slot(a.byte, j)))
    {
      WriteKeepsEntry(m, T, t, i, v, a.byte, j);
      assert a == At(a.byte);
    }
  }

  lemma WriteKeepsEntry(m: Memory, T: Tables, t: bv64, i: bv64, v: bv64, t': bv64, j: bv64)
    requires At(t) in T && At(t') in T && IsFrame(t) && IsFrame(t') && i < 512 && j < 512
    requires EntryOk(T, T[At(t)].level, t, i, v)
    requires EntryOk(T, T[At(t')].level, t', j, Read(m, Slot(t', j)))
    ensures EntryOk(T, T[At(t')].level, t', j, Read(Write(m, Slot(t, i), v), Slot(t', j)))
  {
    if t' == t && j == i {
      assert Read(Write(m, Slot(t, i), v), Slot(t', j)) == v;
    } else {
      WriteMisses(m, t, i, v, t', j);
    }
  }

  // A level-1 entry is read only by the walks of its own 4 KiB page.
  lemma Visits1(m: Memory, root: bv64, T: Tables, va: bv64, va': bv64)
    requires Tree(m, root, T) && Reaches1(m, root, va)
    requires Visits(m, root, va', Address(E2(m, root, va)), Pml1Index(va))
    ensures SamePage(va, va')
  {
    Path1(m, root, T, va);
    if Present(E4(m, root, va')) {
      Path3(m, root, T, va');
      if Reaches2(m, root, va') {
        Path2(m, root, T, va');
      }
    }
    SharedTable1(m, root, T, va, va');
  }

  // A level-2 entry is read only by the walks of its own 2 MiB page.
  lemma Visits2(m: Memory, root: bv64, T: Tables, va: bv64, va': bv64)
    requires Tree(m, root, T) && Reaches2(m, root, va)
    requires Visits(m, root, va', Address(E3(m, root, va)), Pml2Index(va))
    ensures SameLargePage(va, va')
  {
    Path2(m, root, T, va);
    if Present(E4(m, root, va')) {
      Path3(m, root, T, va');
      if Reaches1(m, root, va') {
        Path1(m, root, T, va');
      }
    }
    SharedTable2(m, root, T, va, va');
  }

  /** Writing a level-1 entry remaps one 4 KiB page and nothing else. */
  lemma WritePage(m: Memory, root: bv64, T: Tables, va: bv64, v: bv64)
    requires Tree(m, root, T) && Reaches1(m, root, va)
    ensures var m' := Write(m, Slot(Address(E2(m, root, va)), Pml1Index(va)), v);
            && Tree(m', root, T)
            && Walk(m', root, va) == Leaf(12, v)
            && (forall va' :: !SamePage(va, va') ==> Walk(m', root, va') == Walk(m, root, va'))
  {
    var t, i := Address(E2(m, root, va)), Pml1Index(va);
    Path1(m, root, T, va);
    WriteKeepsTree(m, root, T, t, i, v);
    WritePageHit(m, root, T, va, v);
    forall va' | !SamePage(va, va') ensures Walk(Write(m, Slot(t, i), v), root, va') == Walk(m, root, va') {
      if Visits(m, root, va', t, i) {
        Visits1(m, root, T, va, va');
      }
      UnvisitedWrite(m, root, T, t, i, v, va');
    }
  }

  lemma WritePageHit(m: Memory, root: bv64, T: Tables, va: bv64, v: bv64)
    requires Tree(m, root, T) && Reaches1(m, root, va)
    ensures Walk(Write(m, Slot(Address(E2(m, root, va)), Pml1Index(va)), v), root, va) == Leaf(12, v)
  {
    var t, i := Address(E2(m, root, va)), Pml1Index(va);
    Path3(m, root, T, va);
    Path2(m, root, T, va);
    Path1(m, root, T, va);
    WriteMisses(m, t, i, v, root, Pml4Index(va));
    WriteMisses(m, t, i, v, Address(E4(m, root, va)), Pml3Index(va));
    WriteMisses(m, t, i, v, Address(E3(m, root, va)), Pml2Index(va));
    OpenRights(E4(m, root, va), E3(m, root, va), E2(m, root, va), v);
  }

  /** Writing a level-2 entry with the size bit remaps one 2 MiB page and nothing else. */
  lemma WriteLargePage(m: Memory, root: bv64, T: Tables, va: bv64, v: bv64)
    requires Tree(m, root, T) && Reaches2(m, root, va) && Large(v)
    ensures var m' := Write(m, Slot(Address(E3(m, root, va)), Pml2Index(va)), v);
            && Tree(m', root, T)
            && (forall va' :: SameLargePage(va, va') ==> Walk(m', root, va') == Leaf(21, v))
            && (forall va' :: !SameLargePage(va, va') ==> Walk(m', root, va') == Walk(m, root, va'))
  {
    var t, i := Address(E3(m, root, va)), Pml2Index(va);
    Path2(m, root, T, va);
    WriteKeepsTree(m, root, T, t, i, v);
    forall va' | SameLargePage(va, va') ensures Walk(Write(m, Slot(t, i), v), root, va') == Leaf(21, v) {
      WriteLargePageHit(m, root, T, va', v);
    }
    forall va' | !SameLargePage(va, va') ensures Walk(Write(m, Slot(t, i), v), root, va') == Walk(m, root, va') {
      if Visits(m, root, va', t, i) {
        Visits2(m, root, T, va, va');
      }
      UnvisitedWrite(m, root, T, t, i, v, va');
    }
  }

  lemma WriteLargePageHit(m: Memory, root: bv64, T: Tables, va: bv64, v: bv64)
    requires Tree(m, root, T) && Reaches2(m, root, va) && Large(v)
    ensures Walk(Write(m, Slot(Address(E3(m, root, va)), Pml2Index(va)), v), root, va) == Leaf(21, v)
  {
    var t, i := Address(E3(m, root, va)), Pml2Index(va);
    Path3(m, root, T, va);
    Path2(m, root, T, va);
    WriteMisses(m, t, i, v, root, Pml4Index(va));
    WriteMisses(m, t, i, v, Address(E4(m, root, va)), Pml3Index(va));
    OpenRights(E4(m, root, va), E3(m, root, va), E3(m, root, va), v);
  }

  // ---- Adding a table

  /** Memory after a zeroed frame `f` is linked at entry `i` of table `t`. */
  function Grown(m: Memory, t: bv64, i: bv64, f: bv64): Memory {
    Write(ZeroFrame(m, f), Slot(t, i), f | NEW_PAGE_TABLE_FLAGS)
  }

  function GrownTables(T: Tables, t: bv64, i: bv64, f: bv64): Tables
    requires At(t) in T && T[At(t)].level >= 2
  {
    T[At(f) := TableInfo(T[At(t)].level - 1, t, i)]
  }

  /** `f` can become a table below entry `i` of table `t`, which is free. */
  ghost predicate CanGrow(m: Memory, T: Tables, t: bv64, i: bv64, f: bv64) {
    && At(t) in T && T[At(t)].level >= 2 && i < 512
    && !Present(Read(m, Slot(t, i)))
    && IsFrame(f) && f != 0 && At(f) !in T
  }

  lemma GrownRead(m: Memory, t: bv64, i: bv64, f: bv64, t': bv64, i': bv64)
    requires IsFrame(t) && IsFrame(f) && IsFrame(t') && i < 512 && i' < 512 && t != f
    ensures Read(Grown(m, t, i, f), Slot(t', i')) ==
            if t' == t && i' == i then f | NEW_PAGE_TABLE_FLAGS
            else if t' == f then 0
            else Read(m, Slot(t', i'))
  {
    if t' != t || i' != i {
      WriteMisses(ZeroFrame(m, f), t, i, f | NEW_PAGE_TABLE_FLAGS, t', i');
      if t' == f {
        ZeroHits(m, f, i');
      } else {
        ZeroMisses(m, f, t', i');
      }
    }
  }

  lemma GrowKeepsTree(m: Memory, root: bv64, T: Tables, t: bv64, i: bv64, f: bv64)
    requires Tree(m, root, T) && CanGrow(m, T, t, i, f)
    ensures Tree(Grown(m, t, i, f), root, GrownTables(T, t, i, f))
  {
    var m', T' := Grown(m, t, i, f), GrownTables(T, t, i, f);
    GrowTablesOk(m, root, T, t, i, f);
    forall a, j: bv64 | a in T' && j < 512
      ensures EntryOk(T', T'[a].level, a.byte, j, Read(m', Slot(a.byte, j)))
    {
      assert a == At(a.byte);
      if a.byte == f {
        NewTableIsEmpty(m, t, i, f, T', T'[a].level, j);
      } else {
        assert EntryOk(T, T[a].level, a.byte, j, Read(m, Slot(a.byte, j)));
        GrowKeepsEntry(m, T, t, i, f, a.byte, j);
      }
    }
  }

  lemma GrowTablesOk(m: Memory, root: bv64, T: Tables, t: bv64, i: bv64, f: bv64)
    requires TablesOk(root, T) && CanGrow(m, T, t, i, f)
    ensures TablesOk(root, GrownTables(T, t, i, f))
  {}

  lemma NewTableIsEmpty(m: Memory, t: bv64, i: bv64, f: bv64, T: Tables, level: nat, j: bv64)
    requires IsFrame(t) && IsFrame(f) && t != f && i < 512 && j < 512
    ensures EntryOk(T, level, f, j, Read(Grown(m, t, i, f), Slot(f, j)))
  {
    GrownRead(m, t, i, f, f, j);
  }

  lemma GrowKeepsEntry(m: Memory, T: Tables, t: bv64, i: bv64, f: bv64, t': bv64, j: bv64)
    requires CanGrow(m, T, t, i, f) && IsFrame(t)
    requires At(t') in T && IsFrame(t') && t' != f && j < 512
    requires EntryOk(T, T[At(t')].level, t', j, Read(m, Slot(t', j)))
    ensures EntryOk(GrownTables(T, t, i, f), T[At(t')].level, t', j, Read(Grown(m, t, i, f), Slot(t', j)))
  {
    GrownRead(m, t, i, f, t', j);
    if t' == t && j == i {
      NewTableEntry(f);
    } else {
      EntryStaysOk(T, GrownTables(T, t, i, f), T[At(t')].level, t', j, Read(m, Slot(t', j)));
    }
  }

  lemma EntryStaysOk(T: Tables, T': Tables, level: nat, t: bv64, i: bv64, e: bv64)
    requires EntryOk(T, level, t, i, e)
    requires forall a :: a in T ==> a in T' && T'[a] == T[a]
    ensures EntryOk(T', level, t, i, e)
  {}

  /** Linking an empty table changes no translation at all. */
  lemma GrowKeepsWalk(m: Memory, root: bv64, T: Tables, t: bv64, i: bv64, f: bv64, va: bv64)
    requires Tree(m, root, T) && CanGrow(m, T, t, i, f)
    ensures Walk(Grown(m, t, i, f), root, va) == Walk(m, root, va)
  {
    var m' := Grown(m, t, i, f);
    GrownRead(m, t, i, f, root, Pml4Index(va));
    if root == t && i == Pml4Index(va) {
      GrowAtTop(m, i, f, root, va);
      Stops4(m, root, va);
    } else if Present(E4(m, root, va)) {
      GrowKeepsWalk3(m, root, T, t, i, f, va);
    } else {
      Stops4(m, root, va);
      Stops4(m', root, va);
    }
  }

  lemma Stops4(m: Memory, root: bv64, va: bv64)
    requires !Present(E4(m, root, va))
    ensures Walk(m, root, va) == Unmapped
  {}

  lemma Stops3(m: Memory, root: bv64, va: bv64)
    requires !Present(E3(m, root, va))
    ensures Walk(m, root, va) == Unmapped
  {}

  lemma Stops2(m: Memory, root: bv64, va: bv64)
    requires !Present(E2(m, root, va)) && !Large(E3(m, root, va))
    ensures Walk(m, root, va) == Unmapped
  {}

  lemma GrowAtTop(m: Memory, i: bv64, f: bv64, root: bv64, va: bv64)
    requires IsFrame(root) && IsFrame(f) && f != root && i == Pml4Index(va)
    ensures Walk(Grown(m, root, i, f), root, va) == Unmapped
  {
    NewTableEntry(f);
    GrownRead(m, root, i, f, root, Pml4Index(va));
    GrownRead(m, root, i, f, f, Pml3Index(va));
    Stops3(Grown(m, root, i, f), root, va);
  }

  lemma GrowKeepsWalk3(m: Memory, root: bv64, T: Tables, t: bv64, i: bv64, f: bv64, va: bv64)
    requires Tree(m, root, T) && CanGrow(m, T, t, i, f) && Present(E4(m, root, va))
    requires E4(Grown(m, t, i, f), root, va) == E4(m, root, va)
    ensures Walk(Grown(m, t, i, f), root, va) == Walk(m, root, va)
  {
    var m' := Grown(m, t, i, f);
    Path3(m, root, T, va);
    var t3 := Address(E4(m, root, va));
    GrownRead(m, t, i, f, t3, Pml3Index(va));
    if t3 == t && i == Pml3Index(va) {
      NewTableEntry(f);
      GrownRead(m, t, i, f, f, Pml2Index(va));
      Stops2(m', root, va);
      Stops3(m, root, va);
    } else if Reaches2(m, root, va) {
      GrowKeepsWalk2(m, root, T, t, i, f, va);
    } else {
      Stops3(m, root, va);
      Stops3(m', root, va);
    }
  }

  lemma GrowKeepsWalk2(m: Memory, root: bv64, T: Tables, t: bv64, i: bv64, f: bv64, va: bv64)
    requires Tree(m, root, T) && CanGrow(m, T, t, i, f) && Reaches2(m, root, va)
    requires E4(Grown(m, t, i, f), root, va) == E4(m, root, va)
    requires E3(Grown(m, t, i, f), root, va) == E3(m, root, va)
    ensures Walk(Grown(m, t, i, f), root, va) == Walk(m, root, va)
  {
    var m' := Grown(m, t, i, f);
    NewTableEntry(f);
    Path2(m, root, T, va);
    var t2 := Address(E3(m, root, va));
    GrownRead(m, t, i, f, t2, Pml2Index(va));
    if t2 == t && i == Pml2Index(va) {
      GrownRead(m, t, i, f, f, Pml1Index(va));
    } else if Reaches1(m, root, va) {
      Path1(m, root, T, va);
      GrownRead(m, t, i, f, Address(E2(m, root, va)), Pml1Index(va));
      assert Address(E2(m, root, va)) != t;
    }
  }
}
