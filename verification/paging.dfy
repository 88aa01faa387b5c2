/**
 map_page: building and editing a four-level page table whose tables are taken, on the way
 down, from the same frame pool that hands out data frames.
 */
module Paging {
  import opened PhysMem
  import opened PageTable
  import C = Curtain

  const LARGE_PAGE_SIZE_EXPONENT: bv64 := 9
  const LARGE_PAGE_SIZE: bv64 := 2097152
  const ACCEPTABLE_PAGE_SIZES: bv64 := 0x201000

  datatype MapResult = Done | MisalignedPage | IllegalPageMapSize

  predicate IsAligned(x: bv64, align: bv64) {
    x & (align - 1) == 0
  }

  predicate AcceptableSize(size: bv64)
    requires size < 64
  {
    ((1 << size) * PAGE_SIZE) & ACCEPTABLE_PAGE_SIZES != 0
  }

  // Of all the frame sizes only 4 KiB and 2 MiB pass the size test.
  lemma AcceptableSizes(size: bv64)
    requires size < 64
    ensures AcceptableSize(size) <==> size == 0 || size == 9
  {}

  /** What map_page answers before it touches any table. */
  function Check(va: bv64, pa: bv64, size: bv64): MapResult
    requires size < 64
  {
    if !IsAligned(va, PAGE_SIZE) || !IsAligned(pa, PAGE_SIZE) then MisalignedPage
    else if size == LARGE_PAGE_SIZE_EXPONENT &&
            (!IsAligned(va, LARGE_PAGE_SIZE) || !IsAligned(pa, LARGE_PAGE_SIZE)) then MisalignedPage
    else if !AcceptableSize(size) then IllegalPageMapSize
    else Done
  }

  /** A 4 KiB mapping needs both addresses aligned to 4 KiB, a 2 MiB mapping to 2 MiB; alignment comes before size. */
  lemma CheckExact(va: bv64, pa: bv64, size: bv64)
    requires size < 64
    ensures Check(va, pa, size) == Done <==>
            || (size == 0 && va & 0xFFF == 0 && pa & 0xFFF == 0)
            || (size == 9 && va & 0x1FFFFF == 0 && pa & 0x1FFFFF == 0)
    ensures Check(va, pa, size) == MisalignedPage <==>
            || va & 0xFFF != 0 || pa & 0xFFF != 0
            || (size == 9 && (va & 0x1FFFFF != 0 || pa & 0x1FFFFF != 0))
  {
    AcceptableSizes(size);
  }

  ghost function TableFrames(T: Tables): set<bv64> {
    set a | a in T :: a.byte
  }

  /** The tables still to be created before the walk of `va` has a table at level `bottom`. */
  function Missing(m: Memory, root: bv64, va: bv64, bottom: nat): nat
    requires bottom == 1 || bottom == 2
  {
    if !Present(E4(m, root, va)) then 4 - bottom
    else if !Present(E3(m, root, va)) then 3 - bottom
    else if bottom == 1 && !Present(E2(m, root, va)) then 1
    else 0
  }

  function Index(va: bv64, level: nat): (i: bv64)
    requires 1 <= level <= 4
    ensures i < 512
  {
    if level == 4 then Pml4Index(va) else if level == 3 then Pml3Index(va)
    else if level == 2 then Pml2Index(va) else Pml1Index(va)
  }

  /** The walk of `va` reaches table `t` at `level`. */
  ghost predicate OnPath(m: Memory, root: bv64, va: bv64, level: nat, t: bv64) {
    match level
    case 4 => t == root
    case 3 => Present(E4(m, root, va)) && t == Address(E4(m, root, va))
    case 2 => Reaches2(m, root, va) && t == Address(E3(m, root, va))
    case 1 => Reaches1(m, root, va) && t == Address(E2(m, root, va))
    case _ => false
  }

  /** `f` recorded as the table below entry `i` of table `t`. */
  ghost function TablesWith(T: Tables, t: bv64, i: bv64, f: bv64): Tables {
    if At(t) in T && T[At(t)].level >= 2 then GrownTables(T, t, i, f) else T
  }

  // ---- What growing the path of `va` does to the entries on that path

  lemma Grow4(m: Memory, root: bv64, f: bv64, va: bv64)
    requires IsFrame(root) && IsFrame(f) && root != f
    ensures var m' := Grown(m, root, Pml4Index(va), f);
            Present(E4(m', root, va)) && Address(E4(m', root, va)) == f && E3(m', root, va) == 0
  {
    NewTableEntry(f);
    GrownRead(m, root, Pml4Index(va), f, root, Pml4Index(va));
    GrownRead(m, root, Pml4Index(va), f, f, Pml3Index(va));
  }

  lemma Grow3(m: Memory, root: bv64, T: Tables, f: bv64, va: bv64)
    requires Tree(m, root, T) && Present(E4(m, root, va)) && IsFrame(f) && At(f) !in T
    ensures var m' := Grown(m, Address(E4(m, root, va)), Pml3Index(va), f);
            && E4(m', root, va) == E4(m, root, va)
            && Present(E3(m', root, va)) && Address(E3(m', root, va)) == f && E2(m', root, va) == 0
  {
    Path3(m, root, T, va);
    var t := Address(E4(m, root, va));
    assert t != root;
    NewTableEntry(f);
    GrownRead(m, t, Pml3Index(va), f, root, Pml4Index(va));
    GrownRead(m, t, Pml3Index(va), f, t, Pml3Index(va));
    GrownRead(m, t, Pml3Index(va), f, f, Pml2Index(va));
  }

  lemma Grow2(m: Memory, root: bv64, T: Tables, f: bv64, va: bv64)
    requires Tree(m, root, T) && Reaches2(m, root, va) && IsFrame(f) && At(f) !in T
    ensures var m' := Grown(m, Address(E3(m, root, va)), Pml2Index(va), f);
            && E4(m', root, va) == E4(m, root, va) && E3(m', root, va) == E3(m, root, va)
            && Reaches1(m', root, va) && Address(E2(m', root, va)) == f
  {
    Path3(m, root, T, va);
    Path2(m, root, T, va);
    var t3, t := Address(E4(m, root, va)), Address(E3(m, root, va));
    assert t != root && t != t3;
    NewTableEntry(f);
    GrownRead(m, t, Pml2Index(va), f, root, Pml4Index(va));
    GrownRead(m, t, Pml2Index(va), f, t3, Pml3Index(va));
    GrownRead(m, t, Pml2Index(va), f, t, Pml2Index(va));
  }

  lemma OnPathTable(m: Memory, root: bv64, T: Tables, va: bv64, level: nat, t: bv64)
    requires Tree(m, root, T) && OnPath(m, root, va, level, t)
    ensures At(t) in T && T[At(t)].level == level && IsFrame(t)
  {
    match level
    case 4 =>
    case 3 => Path3(m, root, T, va);
    case 2 => Path2(m, root, T, va);
    case 1 => Path1(m, root, T, va);
  }

  /** A new table below the current one puts the walk of `va` one level further. */
  lemma GrowPath(m: Memory, root: bv64, T: Tables, va: bv64, level: nat, t: bv64, f: bv64)
    requires Tree(m, root, T) && 2 <= level <= 4 && OnPath(m, root, va, level, t)
    requires CanGrow(m, T, t, Index(va, level), f)
    ensures var m' := Grown(m, t, Index(va, level), f);
            && OnPath(m', root, va, level - 1, f)
            && !LargeOnPath(m, root, va) && !LargeOnPath(m', root, va)
            && Missing(m, root, va, 1) == Missing(m', root, va, 1) + 1
            && (level > 2 ==> Missing(m, root, va, 2) == Missing(m', root, va, 2) + 1)
  {
    if level == 4 {
      Grow4(m, root, f, va);
    } else if level == 3 {
      Grow3(m, root, T, f, va);
    } else {
      Grow2(m, root, T, f, va);
    }
  }

  // Following an entry that is already present.
  lemma FollowPath(m: Memory, root: bv64, T: Tables, va: bv64, level: nat, t: bv64)
    requires Tree(m, root, T) && 2 <= level <= 4 && OnPath(m, root, va, level, t)
    requires Present(Read(m, Slot(t, Index(va, level)))) && (level == 2 ==> !LargeOnPath(m, root, va))
    ensures OnPath(m, root, va, level - 1, Address(Read(m, Slot(t, Index(va, level)))))
  {}

  lemma GrownOutside(m: Memory, t: bv64, i: bv64, f: bv64, s: set<bv64>)
    requires IsFrame(t) && i < 512 && t in s && f in s
    ensures SameOutside(m, Grown(m, t, i, f), s)
  {
    SlotInFrame(t, i);
    forall a: bv64 | FrameOf(a) !in s ensures Read(Grown(m, t, i, f), a) == Read(m, a) {
      ReadZeroed(m, f, a);
    }
  }

  lemma WriteOutside(m: Memory, t: bv64, i: bv64, v: bv64, s: set<bv64>)
    requires IsFrame(t) && i < 512 && t in s
    ensures SameOutside(m, Write(m, Slot(t, i), v), s)
  {
    SlotInFrame(t, i);
  }

  /** Physical memory, the frames that serve as tables, and the frames still in the pool. */
  datatype State = State(mem: Memory, tables: Tables, free: set<bv64>) {
    ghost predicate Ok(root: bv64) {
      Tree(mem, root, tables) && Apart(free, tables)
    }
  }

  /**
   The state a mapping leaves behind: whatever frames left the pool became tables, no existing
   table was dropped, and no word outside the tables changed.
   */
  ghost predicate Extends(s: State, s': State) {
    && (forall a :: a in s.tables ==> a in s'.tables && s'.tables[a] == s.tables[a])
    && s'.free <= s.free
    && TableFrames(s'.tables) == TableFrames(s.tables) + (s.free - s'.free)
    && SameOutside(s.mem, s'.mem, TableFrames(s'.tables))
  }

  ghost predicate SameTranslations(m: Memory, m': Memory, root: bv64) {
    forall va :: Walk(m', root, va) == Walk(m, root, va)
  }

  ghost predicate Apart(free: set<bv64>, T: Tables) {
    forall f :: f in free ==> At(f) !in T
  }

  lemma GrowExtends(s: State, root: bv64, t: bv64, i: bv64, f: bv64)
    requires s.Ok(root) && CanGrow(s.mem, s.tables, t, i, f) && f in s.free
    ensures var s' := State(Grown(s.mem, t, i, f), GrownTables(s.tables, t, i, f), s.free - {f});
            s'.Ok(root) && SameTranslations(s.mem, s'.mem, root) && Extends(s, s')
  {
    var s' := State(Grown(s.mem, t, i, f), GrownTables(s.tables, t, i, f), s.free - {f});
    GrowKeepsTree(s.mem, root, s.tables, t, i, f);
    forall va ensures Walk(s'.mem, root, va) == Walk(s.mem, root, va) {
      GrowKeepsWalk(s.mem, root, s.tables, t, i, f, va);
    }
    GrownTableFrames(s.tables, t, i, f);
    assert s.free - s'.free == {f};
    GrownOutside(s.mem, t, i, f, TableFrames(s'.tables));
  }

  lemma GrownTableFrames(T: Tables, t: bv64, i: bv64, f: bv64)
    requires At(t) in T && T[At(t)].level >= 2
    ensures TableFrames(GrownTables(T, t, i, f)) == TableFrames(T) + {f}
    ensures t in TableFrames(GrownTables(T, t, i, f))
  {
    var T' := GrownTables(T, t, i, f);
    forall x | x in TableFrames(T) + {f} ensures x in TableFrames(T') {
      assert At(x) in T';
    }
    assert At(t) in T';
  }

  lemma ExtendsTrans(s0: State, s1: State, s2: State)
    requires Extends(s0, s1) && Extends(s1, s2)
    ensures Extends(s0, s2)
  {
    assert s0.free - s2.free == (s0.free - s1.free) + (s1.free - s2.free);
  }

  /**
   What page_cycle does at entry `i` of table `t`: follow a present entry; otherwise link a
   zeroed frame from the pool; an exhausted pool links frame 0.
   */
  ghost predicate Cycled(s: State, t: bv64, i: bv64, s': State, next: bv64) {
    var e := Read(s.mem, Slot(t, i));
    if Present(e) then s' == s && next == Address(e)
    else if s.free == {} then
      next == 0 && s' == s.(mem := Write(s.mem, Slot(t, i), NEW_PAGE_TABLE_FLAGS))
    else
      && next in s.free && IsFrame(next) && next != 0
      && s' == State(Grown(s.mem, t, i, next), TablesWith(s.tables, t, i, next), s.free - {next})
  }

  /** The walk of `va` has come to `next` at `level - 1`, and no translation has changed. */
  ghost predicate Advanced(s: State, root: bv64, va: bv64, level: nat, s': State, next: bv64)
    requires level >= 1
  {
    && s'.Ok(root) && OnPath(s'.mem, root, va, level - 1, next)
    && SameTranslations(s.mem, s'.mem, root)
    && Extends(s, s')
    && (LargeOnPath(s'.mem, root, va) <==> LargeOnPath(s.mem, root, va))
    && |s'.free| - Missing(s'.mem, root, va, 1) == |s.free| - Missing(s.mem, root, va, 1)
    && (level > 2 ==> |s'.free| - Missing(s'.mem, root, va, 2) == |s.free| - Missing(s.mem, root, va, 2))
  }

  /** A step of the walk of `va` advances unless a table is missing from an empty pool or a 2 MiB page is in the way. */
  lemma CycleAdvances(s: State, root: bv64, va: bv64, level: nat, t: bv64, s': State, next: bv64)
    requires 2 <= level <= 4 && s.Ok(root) && OnPath(s.mem, root, va, level, t)
    requires Cycled(s, t, Index(va, level), s', next)
    requires Present(Read(s.mem, Slot(t, Index(va, level)))) || s.free != {}
    requires level == 2 ==> !LargeOnPath(s.mem, root, va)
    ensures Advanced(s, root, va, level, s', next)
  {
    if Present(Read(s.mem, Slot(t, Index(va, level)))) {
      FollowPath(s.mem, root, s.tables, va, level, t);
      ExtendsSelf(s);
    } else {
      GrowAdvances(s, root, va, level, t, s', next);
    }
  }

  lemma ExtendsSelf(s: State)
    ensures Extends(s, s)
  {
    assert s.free - s.free == {};
  }

  lemma GrowAdvances(s: State, root: bv64, va: bv64, level: nat, t: bv64, s': State, next: bv64)
    requires 2 <= level <= 4 && s.Ok(root) && OnPath(s.mem, root, va, level, t)
    requires Cycled(s, t, Index(va, level), s', next)
    requires !Present(Read(s.mem, Slot(t, Index(va, level)))) && s.free != {}
    ensures Advanced(s, root, va, level, s', next)
  {
    var i := Index(va, level);
    OnPathTable(s.mem, root, s.tables, va, level, t);
    GrowExtends(s, root, t, i, next);
    GrowPath(s.mem, root, s.tables, va, level, t, next);
    assert |s'.free| == |s.free| - 1;
  }

  // Linking frame `f`, or frame 0 when there is none.
  lemma LinkingCycles(s: State, t: bv64, i: bv64, f: bv64, s': State)
    requires !Present(Read(s.mem, Slot(t, i))) && IsFrame(f) && (f == 0 <==> s.free == {})
    requires f == 0 ==> s'.tables == s.tables && s'.free == s.free
    requires f == 0 ==> s'.mem == Write(s.mem, Slot(t, i), f | NEW_PAGE_TABLE_FLAGS)
    requires f != 0 ==> f in s.free && s'.free == s.free - {f} && s'.tables == TablesWith(s.tables, t, i, f)
    requires f != 0 ==> s'.mem == Grown(s.mem, t, i, f)
    ensures Cycled(s, t, i, s', Address(f | NEW_PAGE_TABLE_FLAGS))
  {
    NewTableEntry(f);
  }

  // ---- Whole descents

  /**
   Starting from `s0`, the walk of `va` has been extended to table `t` at `level`, at no other cost than table
   frames.
   */
  ghost predicate OnTrack(s0: State, root: bv64, va: bv64, level: nat, s: State, t: bv64) {
    && s.Ok(root) && OnPath(s.mem, root, va, level, t)
    && SameTranslations(s0.mem, s.mem, root)
    && Extends(s0, s)
    && (LargeOnPath(s.mem, root, va) <==> LargeOnPath(s0.mem, root, va))
    && |s.free| - Missing(s.mem, root, va, 1) == |s0.free| - Missing(s0.mem, root, va, 1)
    && (level >= 2 ==> |s.free| - Missing(s.mem, root, va, 2) == |s0.free| - Missing(s0.mem, root, va, 2))
  }

  /** The pool ran out: it held fewer frames than the tables missing above level `bottom`. */
  ghost predicate RanDry(s0: State, root: bv64, va: bv64, bottom: nat, s: State)
    requires bottom == 1 || bottom == 2
  {
    s.free == {} && |s0.free| < Missing(s0.mem, root, va, bottom)
  }

  lemma TrackStart(s: State, root: bv64, va: bv64)
    requires s.Ok(root)
    ensures OnTrack(s, root, va, 4, s, root)
  {
    ExtendsSelf(s);
  }

  lemma TrackAdvanced(s0: State, root: bv64, va: bv64, level: nat, s: State, t: bv64, s': State, next: bv64)
    requires 2 <= level <= 4 && OnTrack(s0, root, va, level, s, t) && Advanced(s, root, va, level, s', next)
    ensures OnTrack(s0, root, va, level - 1, s', next)
  {
    ExtendsTrans(s0, s, s');
  }

  lemma StarvedMissing(s: State, root: bv64, va: bv64, level: nat, t: bv64)
    requires 2 <= level <= 4 && OnPath(s.mem, root, va, level, t)
    requires !Present(Read(s.mem, Slot(t, Index(va, level))))
    ensures Missing(s.mem, root, va, 1) > 0
    ensures level > 2 ==> Missing(s.mem, root, va, 2) > 0
  {}

  lemma TrackStep(s0: State, root: bv64, va: bv64, level: nat, s: State, t: bv64, s': State, next: bv64)
    requires 2 <= level <= 4 && OnTrack(s0, root, va, level, s, t)
    requires Cycled(s, t, Index(va, level), s', next)
    requires level == 2 ==> !LargeOnPath(s0.mem, root, va)
    ensures OnTrack(s0, root, va, level - 1, s', next) || RanDry(s0, root, va, if level > 2 then 2 else 1, s')
  {
    if !Present(Read(s.mem, Slot(t, Index(va, level)))) && s.free == {} {
      StarvedMissing(s, root, va, level, t);
    } else {
      CycleAdvances(s, root, va, level, t, s', next);
      TrackAdvanced(s0, root, va, level, s, t, s', next);
    }
  }

  lemma SlotNotFree(s: State, root: bv64, va: bv64, level: nat, t: bv64)
    requires 1 <= level <= 4 && s.Ok(root) && OnPath(s.mem, root, va, level, t)
    ensures FrameOf(Slot(t, Index(va, level))) !in s.free
  {
    OnPathTable(s.mem, root, s.tables, va, level, t);
    SlotInFrame(t, Index(va, level));
  }

  /** The walk of `va` has come to table `t` at `level`, unless the pool ran dry on the way or had been dry before. */
  ghost predicate Descended(s0: State, root: bv64, va: bv64, level: nat, s: State, t: bv64) {
    if s0.Ok(root) then OnTrack(s0, root, va, level, s, t) || RanDry(s0, root, va, if level >= 2 then 2 else 1, s)
    else s.free == {}
  }

  lemma DescentStarts(s: State, root: bv64, va: bv64)
    requires s.Ok(root) || s.free == {}
    ensures Descended(s, root, va, 4, s, root)
  {
    if s.Ok(root) {
      TrackStart(s, root, va);
    }
  }

  lemma SlotOutsidePool(s0: State, root: bv64, va: bv64, level: nat, s: State, t: bv64)
    requires 1 <= level <= 4 && Descended(s0, root, va, level, s, t)
    ensures FrameOf(Slot(t, Index(va, level))) !in s.free
  {
    if s.free != {} {
      SlotNotFree(s, root, va, level, t);
    }
  }

  lemma DescentGoesOn(s0: State, root: bv64, va: bv64, level: nat, s: State, t: bv64, s': State, next: bv64)
    requires 2 <= level <= 4 && Descended(s0, root, va, level, s, t)
    requires Cycled(s, t, Index(va, level), s', next)
    requires level == 2 ==> !LargeOnPath(s0.mem, root, va)
    ensures Descended(s0, root, va, level - 1, s', next)
  {
    if s0.Ok(root) && OnTrack(s0, root, va, level, s, t) {
      TrackStep(s0, root, va, level, s, t, s', next);
    }
  }

  // ---- map_page as an update of the map from addresses to translations

  /** `s'` maps the 4 KiB page of `va` by leaf entry `v`; every other page translates as in `s`. */
  ghost predicate MapsPage(s: State, root: bv64, va: bv64, v: bv64, s': State) {
    && s'.Ok(root) && Extends(s, s')
    && |s'.free| == |s.free| - Missing(s.mem, root, va, 1)
    && Walk(s'.mem, root, va) == Leaf(12, v)
    && (forall va' :: !SamePage(va, va') ==> Walk(s'.mem, root, va') == Walk(s.mem, root, va'))
  }

  /** The same for the 2 MiB page of `va`, all of whose addresses now share entry `v`. */
  ghost predicate MapsLargePage(s: State, root: bv64, va: bv64, v: bv64, s': State) {
    && s'.Ok(root) && Extends(s, s')
    && |s'.free| == |s.free| - Missing(s.mem, root, va, 2)
    && (forall va' :: SameLargePage(va, va') ==> Walk(s'.mem, root, va') == Leaf(21, v))
    && (forall va' :: !SameLargePage(va, va') ==> Walk(s'.mem, root, va') == Walk(s.mem, root, va'))
  }

  lemma WriteExtends(s0: State, s: State, t: bv64, i: bv64, v: bv64)
    requires Extends(s0, s) && At(t) in s.tables && IsFrame(t) && i < 512
    ensures Extends(s0, s.(mem := Write(s.mem, Slot(t, i), v)))
  {
    var s' := s.(mem := Write(s.mem, Slot(t, i), v));
    assert At(t).byte in TableFrames(s.tables);
    WriteOutside(s.mem, t, i, v, TableFrames(s.tables));
    assert s.free - s'.free == {};
    ExtendsTrans(s0, s, s');
  }

  lemma TrackMapsPage(s0: State, root: bv64, va: bv64, v: bv64, s: State, t: bv64)
    requires OnTrack(s0, root, va, 1, s, t)
    ensures MapsPage(s0, root, va, v, s.(mem := Write(s.mem, Slot(t, Pml1Index(va)), v)))
  {
    OnPathTable(s.mem, root, s.tables, va, 1, t);
    WritePage(s.mem, root, s.tables, va, v);
    WriteExtends(s0, s, t, Pml1Index(va), v);
  }

  lemma TrackMapsLargePage(s0: State, root: bv64, va: bv64, v: bv64, s: State, t: bv64)
    requires OnTrack(s0, root, va, 2, s, t) && Large(v)
    ensures MapsLargePage(s0, root, va, v, s.(mem := Write(s.mem, Slot(t, Pml2Index(va)), v)))
  {
    OnPathTable(s.mem, root, s.tables, va, 2, t);
    WriteLargePage(s.mem, root, s.tables, va, v);
    WriteExtends(s0, s, t, Pml2Index(va), v);
  }

  // ---- A 2 MiB page in the way of a 4 KiB mapping

  // The neighbouring 4 KiB page in the same 2 MiB page.
  lemma Neighbour(va: bv64)
    ensures SameLargePage(va, va ^ 0x1000) && !SamePage(va, va ^ 0x1000)
  {}

  // A walk that does not end in a level-1 entry ends alike for the whole 2 MiB page.
  lemma SharedLeaf(m: Memory, root: bv64, va: bv64, va': bv64)
    requires SameLargePage(va, va') && Walk(m, root, va').Mapped? && Walk(m, root, va').shift != 12
    ensures Walk(m, root, va) == Walk(m, root, va')
  {
    var e4, e3, e2 := E4(m, root, va), E3(m, root, va), E2(m, root, va);
    assert WalkOf(e4, e3, e2, E1(m, root, va)) == WalkOf(e4, e3, e2, E1(m, root, va'));
  }

  lemma LargeLeaf(m: Memory, root: bv64, va: bv64, va': bv64)
    requires SameLargePage(va, va') && LargeOnPath(m, root, va)
    ensures Walk(m, root, va').Mapped? && Walk(m, root, va').shift != 12
  {}

  lemma NotSmallLeaf(w: Translation, v: bv64)
    requires w.Mapped? && w.shift != 12
    ensures w != Leaf(12, v)
  {}

  // Mapping one 4 KiB page would have to leave the next one with the large page's translation.
  lemma NeighboursShare(s: State, root: bv64, va: bv64, va': bv64, v: bv64, s': State)
    requires SameLargePage(va, va') && !SamePage(va, va') && LargeOnPath(s.mem, root, va)
    ensures !MapsPage(s, root, va, v, s')
  {
    LargeLeaf(s.mem, root, va, va');
    if MapsPage(s, root, va, v, s') {
      SharedLeaf(s'.mem, root, va, va');
      NotSmallLeaf(Walk(s'.mem, root, va), v);
    }
  }

  // While a 2 MiB page covers `va`, no state maps its 4 KiB page alone.
  lemma LargeNeverSplits(s: State, root: bv64, va: bv64, v: bv64, s': State)
    requires LargeOnPath(s.mem, root, va)
    ensures !MapsPage(s, root, va, v, s')
  {
    Neighbour(va);
    NeighboursShare(s, root, va, va ^ 0x1000, v, s');
  }

  /**
   When a 2 MiB page covers `va`, page_cycle takes the page itself for a table and the entry lands
   in the page's first frame: the 4 KiB page is not mapped, and unless that frame is a table the
   walk of `va` reads from, the address keeps its 2 MiB translation.
   */
  lemma LargePageShadows(s: State, root: bv64, va: bv64, v: bv64, s': State)
    requires s.Ok(root) && LargeOnPath(s.mem, root, va) && Shadowed(s, root, va, v, s')
    ensures !MapsPage(s, root, va, v, s')
    ensures !Visits(s.mem, root, va, Address(E2(s.mem, root, va)), Pml1Index(va)) ==>
              Walk(s'.mem, root, va) == Walk(s.mem, root, va) && Walk(s'.mem, root, va).Mapped?
                && Walk(s'.mem, root, va).shift == 21
  {
    LargeNeverSplits(s, root, va, v, s');
    var t, i := Address(E2(s.mem, root, va)), Pml1Index(va);
    if !Visits(s.mem, root, va, t, i) {
      Path3(s.mem, root, s.tables, va);
      Path2(s.mem, root, s.tables, va);
      WriteMisses(s.mem, t, i, v, root, Pml4Index(va));
      WriteMisses(s.mem, t, i, v, Address(E4(s.mem, root, va)), Pml3Index(va));
      WriteMisses(s.mem, t, i, v, Address(E3(s.mem, root, va)), Pml2Index(va));
    }
  }

  /** The entry was written into the first frame of the 2 MiB page, and nowhere else. */
  ghost predicate Shadowed(s: State, root: bv64, va: bv64, v: bv64, s': State) {
    s' == s.(mem := Write(s.mem, Slot(Address(E2(s.mem, root, va)), Pml1Index(va)), v))
  }

  // ---- All outcomes of map_page

  /**
   A 4 KiB mapping: the page is mapped and nothing else changes, exactly if no 2 MiB page covers it;
   under one, the entry goes into the large page. If the pool held fewer frames than there were
   missing tables, it is now empty.
   */
  ghost predicate SmallOutcome(s: State, root: bv64, va: bv64, v: bv64, s': State) {
    if !s.Ok(root) || |s.free| < Missing(s.mem, root, va, 1) then s'.free == {}
    else
      && (MapsPage(s, root, va, v, s') <==> !LargeOnPath(s.mem, root, va))
      && (LargeOnPath(s.mem, root, va) ==> Shadowed(s, root, va, v, s'))
  }

  ghost predicate LargeOutcome(s: State, root: bv64, va: bv64, v: bv64, s': State) {
    if !s.Ok(root) || |s.free| < Missing(s.mem, root, va, 2) then s'.free == {}
    else MapsLargePage(s, root, va, v, s')
  }

  /** Only a store that a 2 MiB page diverts can reach a free frame and damage the pool. */
  ghost predicate Diverted(s: State, root: bv64, va: bv64) {
    s.Ok(root) && LargeOnPath(s.mem, root, va) && s.free != {}
  }

  // What storing the entry makes of a finished descent.
  lemma StoreSmall(s0: State, root: bv64, va: bv64, v: bv64, s: State, t: bv64)
    requires !LargeOnPath(s0.mem, root, va) && Descended(s0, root, va, 1, s, t)
    ensures SmallOutcome(s0, root, va, v, s.(mem := Write(s.mem, Slot(t, Pml1Index(va)), v)))
  {
    if s0.Ok(root) && OnTrack(s0, root, va, 1, s, t) {
      TrackMapsPage(s0, root, va, v, s, t);
    }
  }

  lemma StoreShadowed(s: State, root: bv64, va: bv64, v: bv64, s': State)
    requires LargeOnPath(s.mem, root, va) && Shadowed(s, root, va, v, s') && (s.Ok(root) || s.free == {})
    ensures SmallOutcome(s, root, va, v, s')
  {
    LargeNeverSplits(s, root, va, v, s');
  }

  lemma StoreLarge(s0: State, root: bv64, va: bv64, v: bv64, s: State, t: bv64)
    requires Large(v) && Descended(s0, root, va, 2, s, t)
    ensures LargeOutcome(s0, root, va, v, s.(mem := Write(s.mem, Slot(t, Pml2Index(va)), v)))
  {
    if s0.Ok(root) && OnTrack(s0, root, va, 2, s, t) {
      TrackMapsLargePage(s0, root, va, v, s, t);
    }
  }

  class Pagemap {
    const ram: C.Curtain
    const topLevel: bv64
    ghost var tables: Tables

    ghost function Now(): State
      reads this, ram
    {
      State(ram.mem, tables, ram.Free())
    }

    ghost predicate Valid()
      reads this, ram
    {
      ram.Valid() && Now().Ok(topLevel)
    }

    /** The state between calls: an intact tree, or a pool that has run dry and hands out nothing more. */
    ghost predicate Usable()
      reads this, ram
    {
      ram.Valid() && (Now().Ok(topLevel) || ram.Free() == {})
    }

    /** An empty top-level table in frame `top`, which allocate_page_random has zeroed. */
    constructor (ram: C.Curtain, top: bv64)
      requires ram.Valid() && IsFrame(top) && top != 0 && top !in ram.Free()
      requires forall i: bv64 :: i < 512 ==> Read(ram.mem, Slot(top, i)) == 0
      ensures Valid() && this.ram == ram && topLevel == top && TableFrames(tables) == {top}
      ensures forall va :: Walk(ram.mem, topLevel, va) == Unmapped
    {
      this.ram := ram;
      topLevel := top;
      tables := map[At(top) := TableInfo(4, 0, 0)];
    }

    /**
     Follows entry `i` of table `t`, creating the next table if the entry is not present.
     */
    method PageCycle(t: bv64, i: bv64, denoter: nat) returns (next: bv64)
      requires ram.Valid() && FrameOf(Slot(t, i)) !in ram.Free()
      modifies this, ram
      ensures ram.Valid()
      ensures Cycled(old(Now()), t, i, Now(), next)
    {
      var entry := Read(ram.mem, Slot(t, i));
      if !Present(entry) {
        entry := NewTable(t, i, denoter);
      }
      next := Address(entry);
    }

    method NewTable(t: bv64, i: bv64, denoter: nat) returns (entry: bv64)
      requires ram.Valid() && FrameOf(Slot(t, i)) !in ram.Free()
      requires !Present(Read(ram.mem, Slot(t, i)))
      modifies this, ram
      ensures ram.Valid()
      ensures Cycled(old(Now()), t, i, Now(), Address(entry))
    {
      var f := ram.AllocatePage(denoter);
      entry := f | NEW_PAGE_TABLE_FLAGS;
      ram.Store(Slot(t, i), entry);
      if f != 0 {
        tables := TablesWith(tables, t, i, f);
      }
      LinkingCycles(old(Now()), t, i, f, Now());
    }

    method StoreEntry(t: bv64, i: bv64, v: bv64)
      requires ram.Valid()
      modifies ram
      ensures Now() == old(Now()).(mem := Write(old(Now()).mem, Slot(t, i), v))
      ensures FrameOf(Slot(t, i)) !in old(Now()).free ==> ram.Valid()
    {
      ram.Store(Slot(t, i), v);
    }

    // The two page_cycle calls that every mapping makes.
    method DescendToDirectory(va: bv64, d4: nat, d3: nat) returns (t: bv64)
      requires Usable()
      modifies this, ram
      ensures ram.Valid() && Descended(old(Now()), topLevel, va, 2, Now(), t)
      ensures Reaches2(old(Now()).mem, topLevel, va) ==>
              Now() == old(Now()) && t == Address(E3(old(Now()).mem, topLevel, va))
    {
      ghost var s0 := Now();
      DescentStarts(s0, topLevel, va);
      SlotOutsidePool(s0, topLevel, va, 4, s0, topLevel);
      t := PageCycle(topLevel, Pml4Index(va), d4);
      ghost var s1, t3 := Now(), t;
      DescentGoesOn(s0, topLevel, va, 4, s0, topLevel, s1, t3);
      SlotOutsidePool(s0, topLevel, va, 3, s1, t3);
      t := PageCycle(t, Pml3Index(va), d3);
      DescentGoesOn(s0, topLevel, va, 3, s1, t3, Now(), t);
    }

    // Large case: one entry with the size bit in the page directory.
    method MapLarge(va: bv64, v: bv64, d4: nat, d3: nat)
      requires Usable() && Large(v)
      modifies this, ram
      ensures ram.Valid() && LargeOutcome(old(Now()), topLevel, va, v, Now())
    {
      ghost var s0 := Now();
      var t := DescendToDirectory(va, d4, d3);
      ghost var s := Now();
      SlotOutsidePool(s0, topLevel, va, 2, s, t);
      StoreLarge(s0, topLevel, va, v, s, t);
      StoreEntry(t, Pml2Index(va), v);
    }

    // Small case: a third page_cycle, which takes a 2 MiB page for a table.
    method DescendToTable(va: bv64, d4: nat, d3: nat, d2: nat) returns (t: bv64)
      requires Usable()
      modifies this, ram
      ensures ram.Valid()
      ensures !LargeOnPath(old(Now()).mem, topLevel, va) ==> Descended(old(Now()), topLevel, va, 1, Now(), t)
      ensures LargeOnPath(old(Now()).mem, topLevel, va) ==>
                Now() == old(Now()) && t == Address(E2(old(Now()).mem, topLevel, va))
    {
      ghost var s0 := Now();
      t := DescendToDirectory(va, d4, d3);
      ghost var s1, t2 := Now(), t;
      SlotOutsidePool(s0, topLevel, va, 2, s1, t);
      t := PageCycle(t, Pml2Index(va), d2);
      if !LargeOnPath(s0.mem, topLevel, va) {
        DescentGoesOn(s0, topLevel, va, 2, s1, t2, Now(), t);
      }
    }

    method MapSmall(va: bv64, v: bv64, d4: nat, d3: nat, d2: nat)
      requires Usable()
      modifies this, ram
      ensures SmallOutcome(old(Now()), topLevel, va, v, Now())
      ensures !Diverted(old(Now()), topLevel, va) ==> ram.Valid()
    {
      ghost var s0 := Now();
      var t := DescendToTable(va, d4, d3, d2);
      ghost var s := Now();
      StoreEntry(t, Pml1Index(va), v);
      if LargeOnPath(s0.mem, topLevel, va) {
        StoreShadowed(s0, topLevel, va, v, Now());
      } else {
        SlotOutsidePool(s0, topLevel, va, 1, s, t);
        StoreSmall(s0, topLevel, va, v, s, t);
      }
    }

    /**
     Maps the page of `va` to the frame at `pa`. Of the pool it needs one frame per missing
     table. A 4 KiB mapping takes effect exactly when no 2 MiB page already covers `va`.
     */
    method MapPage(va: bv64, pa: bv64, size: bv64, flags: bv64, d4: nat, d3: nat, d2: nat) returns (r: MapResult)
      requires Usable() && size < 64
      modifies this, ram
      ensures r == Check(va, pa, size)
      ensures r != Done ==> Usable() && Now() == old(Now())
      ensures r == Done && size == 9 ==>
                ram.Valid() && LargeOutcome(old(Now()), topLevel, va, Address(pa) | flags | PAGE_DIRECTORY_SIZE_BIT,
                                            Now())
      ensures r == Done && size == 0 ==>
                && SmallOutcome(old(Now()), topLevel, va, Address(pa) | flags, Now())
                && (!Diverted(old(Now()), topLevel, va) ==> ram.Valid())
    {
      r := Check(va, pa, size);
      if r == Done {
        if size == LARGE_PAGE_SIZE_EXPONENT {
          MapLarge(va, Address(pa) | flags | PAGE_DIRECTORY_SIZE_BIT, d4, d3);
        } else {
          MapSmall(va, Address(pa) | flags, d4, d3, d2);
        }
      }
    }
  }
}
