/**
 allocate_random_and_map: runs of map_page calls on frames from the pool, and the isolation
 they keep between virtual pages and between data frames and page tables.
 */
module Vmm {
  import opened PhysMem
  import opened PageTable
  import opened Paging
  import C = Curtain

  /** The 48-bit virtual page of `va`, as the address of its first byte. */
  function PageKey(va: bv64): bv64 {
    va & 0x0000FFFFFFFFF000
  }

  lemma PageKeyIffSamePage(va: bv64, va': bv64)
    ensures PageKey(va) == PageKey(va') <==> SamePage(va, va')
  {
    KeyFromIndices(va);
    KeyFromIndices(va');
    IndicesFromKey(va);
    IndicesFromKey(va');
  }

  lemma KeyFromIndices(va: bv64)
    ensures PageKey(va) == (Pml4Index(va) << 39) | (Pml3Index(va) << 30) | (Pml2Index(va) << 21) | (Pml1Index(va) << 12)
  {}

  lemma IndicesFromKey(va: bv64)
    ensures Pml4Index(PageKey(va)) == Pml4Index(va) && Pml3Index(PageKey(va)) == Pml3Index(va)
    ensures Pml2Index(PageKey(va)) == Pml2Index(va) && Pml1Index(PageKey(va)) == Pml1Index(va)
  {}

  lemma SamePageSameWalk(m: Memory, root: bv64, va: bv64, va': bv64)
    requires SamePage(va, va')
    ensures Walk(m, root, va) == Walk(m, root, va')
  {}

  /** The address of page `i` of a range that starts at `base`. */
  function PageAt(base: bv64, i: nat): bv64 {
    if i == 0 then base else PageAt(base, i - 1) + 4096
  }

  /** The `n` pages of the range are different pages of the address space. */
  ghost predicate DistinctPages(base: bv64, n: nat) {
    forall i, j :: 0 <= i < j < n ==> PageKey(PageAt(base, i)) != PageKey(PageAt(base, j))
  }

  /** Virtual pages given out so far, each with its frame and flags. */
  datatype Owner = Owner(frame: bv64, flags: bv64)
  type Owned = map<Addr, Owner>

  function LeafEntry(o: Owner): bv64 {
    Address(o.frame) | o.flags
  }

  ghost predicate OwnsFrame(s: State, root: bv64, k: Addr, o: Owner) {
    && PageKey(k.byte) == k.byte
    && Present(LeafEntry(o)) && IsFrame(o.frame)
    && Walk(s.mem, root, k.byte) == Leaf(12, LeafEntry(o))
    && o.frame !in s.free && At(o.frame) !in s.tables
  }

  /** The recorded frames of distinct pages are distinct; no such frame is free or a page table. */
  ghost predicate Isolated(s: State, root: bv64, owned: Owned) {
    && (forall k {:trigger OwnsFrame(s, root, k, owned[k])} :: k in owned ==> OwnsFrame(s, root, k, owned[k]))
    && DistinctFrames(owned)
  }

  ghost predicate DistinctFrames(owned: Owned) {
    forall k, k' :: k in owned && k' in owned && k != k' ==> owned[k].frame != owned[k'].frame
  }

  // ---- What the processor makes of it

  /** The frame that the processor finds for page `k`, if any. */
  function FrameOfPage(m: Memory, root: bv64, k: Addr): bv64 {
    var w := Walk(m, root, k.byte);
    if w.Mapped? then Address(w.entry) else 0
  }

  /** Distinct pages translate to distinct frames; no such frame is free or a page table. */
  ghost predicate PagesApart(s: State, root: bv64, ks: set<Addr>) {
    && (forall k :: k in ks ==> PageSafe(s, root, k))
    && (forall k, k' :: k in ks && k' in ks && k != k' ==> FrameOfPage(s.mem, root, k) != FrameOfPage(s.mem, root, k'))
  }

  ghost predicate PageSafe(s: State, root: bv64, k: Addr) {
    var f := FrameOfPage(s.mem, root, k);
    Walk(s.mem, root, k.byte).Mapped? && f !in s.free && At(f) !in s.tables
  }

  /** Flags that leave the address bits of an entry alone. */
  predicate CleanFlags(flags: bv64) {
    flags & !PAGE_TABLE_ADDRESS_MASK == 0
  }

  ghost predicate LeadsTo(f: bv64, flags: bv64) {
    Address(LeafEntry(Owner(f, flags))) == f
  }

  ghost predicate AllClean(owned: Owned) {
    forall k :: k in owned ==> CleanFlags(owned[k].flags)
  }

  /** An entry leads to the frame it was made for, whichever frame that is, exactly if its flags are clean. */
  lemma FlagsExact(flags: bv64)
    ensures Faithful(flags) <==> CleanFlags(flags)
  {
    if CleanFlags(flags) {
      CleanIsFaithful(flags);
    } else {
      StrayIsNot(flags);
    }
  }

  ghost predicate Faithful(flags: bv64) {
    forall f {:trigger LeadsTo(f, flags)} :: IsFrame(f) && f != 0 ==> LeadsTo(f, flags)
  }

  lemma CleanIsFaithful(flags: bv64)
    requires CleanFlags(flags)
    ensures Faithful(flags)
  {
    forall f | IsFrame(f) && f != 0 ensures LeadsTo(f, flags) {
      CleanLeads(f, flags);
    }
  }

  lemma CleanLeads(f: bv64, flags: bv64)
    requires IsFrame(f) && CleanFlags(flags)
    ensures LeadsTo(f, flags)
  {
    LeafEntryExact(f, flags);
  }

  lemma StrayIsNot(flags: bv64)
    requires !CleanFlags(flags)
    ensures !Faithful(flags)
  {
    var f: bv64 := if Address(flags) == 0x1000 then 0x2000 else 0x1000;
    StrayFrame(flags, f);
  }

  lemma StrayFrame(flags: bv64, f: bv64)
    requires !CleanFlags(flags) && f == if Address(flags) == 0x1000 then 0x2000 else 0x1000
    ensures IsFrame(f) && f != 0 && !LeadsTo(f, flags)
  {}

  /** With stray address bits in the flags, two pages with different frames translate to one frame. */
  lemma StrayFlagsCollide()
    ensures var a, b := Owner(0x1000, 0x2001), Owner(0x2000, 0x1001);
            a.frame != b.frame && Address(LeafEntry(a)) == Address(LeafEntry(b)) == 0x3000
  {}

  /** With clean flags, what is true of the recorded frames is true of the translations. */
  lemma CleanPagesApart(s: State, root: bv64, owned: Owned)
    requires Isolated(s, root, owned) && AllClean(owned)
    ensures PagesApart(s, root, owned.Keys)
  {
    forall k | k in owned ensures FrameOfPage(s.mem, root, k) == owned[k].frame && PageSafe(s, root, k) {
      CleanOwner(s, root, k, owned[k]);
    }
  }

  lemma CleanOwner(s: State, root: bv64, k: Addr, o: Owner)
    requires OwnsFrame(s, root, k, o) && CleanFlags(o.flags)
    ensures FrameOfPage(s.mem, root, k) == o.frame && PageSafe(s, root, k)
  {
    LeafEntryExact(o.frame, o.flags);
  }

  // ---- Taking a frame from the pool

  /** Memories that agree on every table entry translate every address alike. */
  lemma SameTablesSameWalk(m: Memory, m': Memory, root: bv64, T: Tables, va: bv64)
    requires Tree(m, root, T)
    requires forall a, i: bv64 :: a in T && i < 512 ==> Read(m', Slot(a.byte, i)) == Read(m, Slot(a.byte, i))
    ensures Walk(m', root, va) == Walk(m, root, va)
  {
    SameEntry(m, m', T, root, Pml4Index(va));
    if Present(E4(m, root, va)) {
      Path3(m, root, T, va);
      SameEntry(m, m', T, Address(E4(m, root, va)), Pml3Index(va));
      if Reaches2(m, root, va) {
        Path2(m, root, T, va);
        SameEntry(m, m', T, Address(E3(m, root, va)), Pml2Index(va));
        if Reaches1(m, root, va) {
          Path1(m, root, T, va);
          SameEntry(m, m', T, Address(E2(m, root, va)), Pml1Index(va));
        }
      }
    }
    SameWalk(E4(m, root, va), E3(m, root, va), E2(m, root, va), E1(m, root, va),
             E3(m', root, va), E2(m', root, va), E1(m', root, va));
  }

  lemma SameEntry(m: Memory, m': Memory, T: Tables, t: bv64, i: bv64)
    requires forall a, i: bv64 :: a in T && i < 512 ==> Read(m', Slot(a.byte, i)) == Read(m, Slot(a.byte, i))
    requires At(t) in T && i < 512
    ensures Read(m', Slot(t, i)) == Read(m, Slot(t, i))
  {
    assert Read(m', Slot(At(t).byte, i)) == Read(m, Slot(At(t).byte, i));
  }

  lemma ZeroKeepsWalk(m: Memory, root: bv64, T: Tables, f: bv64, va: bv64)
    requires Tree(m, root, T) && At(f) !in T
    ensures Walk(ZeroFrame(m, f), root, va) == Walk(m, root, va)
  {
    forall a, i: bv64 | a in T && i < 512
      ensures Read(ZeroFrame(m, f), Slot(a.byte, i)) == Read(m, Slot(a.byte, i))
    {
      assert a == At(a.byte);
      ZeroMisses(m, f, a.byte, i);
    }
    SameTablesSameWalk(m, ZeroFrame(m, f), root, T, va);
  }

  lemma ZeroKeepsTree(m: Memory, root: bv64, T: Tables, f: bv64)
    requires Tree(m, root, T) && At(f) !in T
    ensures Tree(ZeroFrame(m, f), root, T)
  {
    forall a, i: bv64 | a in T && i < 512
      ensures EntryOk(T, T[a].level, a.byte, i, Read(ZeroFrame(m, f), Slot(a.byte, i)))
    {
      assert a == At(a.byte);
      ZeroMisses(m, f, a.byte, i);
    }
  }

  /** The pool without `f`, which has been zeroed. */
  ghost function Taken(s: State, f: bv64): State {
    State(ZeroFrame(s.mem, f), s.tables, s.free - {f})
  }

  lemma TakeKeeps(s: State, root: bv64, owned: Owned, f: bv64)
    requires s.Ok(root) && Isolated(s, root, owned) && f in s.free
    ensures Taken(s, f).Ok(root) && Isolated(Taken(s, f), root, owned)
    ensures forall va :: Walk(Taken(s, f).mem, root, va) == Walk(s.mem, root, va)
    ensures forall k :: k in owned ==> owned[k].frame != f
  {
    ZeroKeepsTree(s.mem, root, s.tables, f);
    forall va ensures Walk(Taken(s, f).mem, root, va) == Walk(s.mem, root, va) {
      ZeroKeepsWalk(s.mem, root, s.tables, f, va);
    }
    forall k | k in owned ensures OwnsFrame(Taken(s, f), root, k, owned[k]) && owned[k].frame != f {
      assert OwnsFrame(s, root, k, owned[k]);
    }
  }

  // ---- Mapping it

  lemma NotTable(s: State, s': State, f: bv64)
    requires Extends(s, s') && f !in s.free && At(f) !in s.tables
    ensures f !in s'.free && At(f) !in s'.tables
  {
    assert f !in TableFrames(s'.tables);
  }

  lemma MapKeepsOwner(s: State, root: bv64, va: bv64, v: bv64, s': State, k: Addr, o: Owner)
    requires MapsPage(s, root, va, v, s') && OwnsFrame(s, root, k, o) && PageKey(va) != k.byte
    ensures OwnsFrame(s', root, k, o)
  {
    PageKeyIffSamePage(va, k.byte);
    NotTable(s, s', o.frame);
  }

  /** One more page, one more frame: isolation is kept, and with clean flags it is that of the translations. */
  lemma MapKeepsIsolation(s: State, root: bv64, owned: Owned, va: bv64, o: Owner, s': State)
    requires s.Ok(root) && Isolated(s, root, owned) && MapsPage(s, root, va, LeafEntry(o), s')
    requires Present(LeafEntry(o)) && IsFrame(o.frame) && o.frame !in s.free && At(o.frame) !in s.tables
    requires At(PageKey(va)) !in owned
    requires forall k :: k in owned ==> owned[k].frame != o.frame
    ensures Isolated(s', root, owned[At(PageKey(va)) := o])
    ensures AllClean(owned) && CleanFlags(o.flags) ==> PagesApart(s', root, owned.Keys + {At(PageKey(va))})
  {
    var key := At(PageKey(va));
    OwnsNew(s, root, va, o, s');
    forall k | k in owned ensures OwnsFrame(s', root, k, owned[k]) {
      assert k != key;
      MapKeepsOwner(s, root, va, LeafEntry(o), s', k, owned[k]);
    }
    OneMoreOwner(s', root, owned, key, o);
    if AllClean(owned) && CleanFlags(o.flags) {
      CleanOneMore(s', root, owned, key, o);
    }
  }

  lemma CleanOneMore(s: State, root: bv64, owned: Owned, key: Addr, o: Owner)
    requires AllClean(owned) && CleanFlags(o.flags) && Isolated(s, root, owned[key := o])
    ensures PagesApart(s, root, owned.Keys + {key})
  {
    var owned' := owned[key := o];
    assert owned'.Keys == owned.Keys + {key};
    CleanPagesApart(s, root, owned');
  }

  lemma OneMoreOwner(s: State, root: bv64, owned: Owned, key: Addr, o: Owner)
    requires (forall k :: k in owned ==> OwnsFrame(s, root, k, owned[k])) && DistinctFrames(owned)
    requires forall k :: k in owned ==> owned[k].frame != o.frame
    requires OwnsFrame(s, root, key, o)
    ensures Isolated(s, root, owned[key := o])
  {
    OneMoreFrame(owned, key, o);
    var owned' := owned[key := o];
    forall k | k in owned' ensures OwnsFrame(s, root, k, owned'[k]) {
      if k != key {
        assert owned'[k] == owned[k];
        assert OwnsFrame(s, root, k, owned[k]);
      }
    }
  }

  lemma OneMoreFrame(owned: Owned, key: Addr, o: Owner)
    requires DistinctFrames(owned) && forall k :: k in owned ==> owned[k].frame != o.frame
    ensures DistinctFrames(owned[key := o])
  {}

  lemma OwnsNew(s: State, root: bv64, va: bv64, o: Owner, s': State)
    requires MapsPage(s, root, va, LeafEntry(o), s')
    requires Present(LeafEntry(o)) && IsFrame(o.frame) && o.frame !in s.free && At(o.frame) !in s.tables
    ensures OwnsFrame(s', root, At(PageKey(va)), o)
  {
    NotTable(s, s', o.frame);
    PageKeyTwice(va);
    PageKeyIffSamePage(va, PageKey(va));
    SamePageSameWalk(s'.mem, root, va, PageKey(va));
  }

  lemma PageKeyTwice(va: bv64)
    ensures PageKey(PageKey(va)) == PageKey(va)
  {}

  // A page without a translation is neither owned nor covered by a 2 MiB page.
  lemma UnmappedIsFree(s: State, root: bv64, owned: Owned, va: bv64)
    requires s.Ok(root) && Isolated(s, root, owned) && Walk(s.mem, root, va) == Unmapped
    ensures At(PageKey(va)) !in owned && !LargeOnPath(s.mem, root, va)
  {
    if At(PageKey(va)) in owned {
      assert OwnsFrame(s, root, At(PageKey(va)), owned[At(PageKey(va))]);
      PageKeyTwice(va);
      PageKeyIffSamePage(va, PageKey(va));
      SamePageSameWalk(s.mem, root, va, PageKey(va));
    }
    if LargeOnPath(s.mem, root, va) {
      Path2(s.mem, root, s.tables, va);
    }
  }

  /** `owned` once page `va` has been given `o`; a mapping without the present bit gives nothing. */
  ghost function Grant(owned: Owned, va: bv64, o: Owner): Owned {
    if Present(LeafEntry(o)) then owned[At(PageKey(va)) := o] else owned
  }

  lemma MapOnUnmapped(s: State, root: bv64, owned: Owned, va: bv64, o: Owner, s': State)
    requires s.Ok(root) && Isolated(s, root, owned) && MapsPage(s, root, va, LeafEntry(o), s')
    requires IsFrame(o.frame) && o.frame !in s.free && At(o.frame) !in s.tables
    requires Walk(s.mem, root, va) == Unmapped
    requires forall k :: k in owned ==> owned[k].frame != o.frame
    ensures Isolated(s', root, Grant(owned, va, o))
  {
    UnmappedIsFree(s, root, owned, va);
    if Present(LeafEntry(o)) {
      MapKeepsIsolation(s, root, owned, va, o, s');
    } else {
      forall k | k in owned ensures OwnsFrame(s', root, k, owned[k]) {
        MapKeepsOwner(s, root, va, LeafEntry(o), s', k, owned[k]);
      }
    }
  }

  /** What a mapping of an unmapped page leaves: the page is owned, unless the pool ran dry. */
  lemma OutcomeIsolated(s: State, root: bv64, owned: Owned, va: bv64, o: Owner, s': State)
    requires s.Ok(root) && Isolated(s, root, owned) && Walk(s.mem, root, va) == Unmapped
    requires IsFrame(o.frame) && o.frame !in s.free && At(o.frame) !in s.tables
    requires forall k :: k in owned ==> owned[k].frame != o.frame
    requires SmallOutcome(s, root, va, LeafEntry(o), s')
    ensures !Diverted(s, root, va)
    ensures |s.free| < Missing(s.mem, root, va, 1) ==> s'.free == {}
    ensures |s.free| >= Missing(s.mem, root, va, 1) ==>
              MapsPage(s, root, va, LeafEntry(o), s') && Isolated(s', root, Grant(owned, va, o))
  {
    UnmappedIsFree(s, root, owned, va);
    if |s.free| >= Missing(s.mem, root, va, 1) {
      MapOnUnmapped(s, root, owned, va, o, s');
    }
  }

  lemma DryStaysDry(s: State, root: bv64, va: bv64, v: bv64, s': State)
    requires s.free == {} && SmallOutcome(s, root, va, v, s')
    ensures s'.free == {} && !Diverted(s, root, va)
  {}

  // allocate_page_random frames and page-aligned addresses always pass map_page's tests.
  lemma SmallPagePasses(va: bv64, f: bv64)
    requires IsFrame(f) && IsAligned(va, PAGE_SIZE)
    ensures Check(va, f, 0) == Done
  {}

  /** Every address outside the pages `ks` translates as before. */
  ghost predicate SameElsewhere(m: Memory, m': Memory, root: bv64, ks: set<Addr>) {
    forall va :: At(PageKey(va)) !in ks ==> Walk(m', root, va) == Walk(m, root, va)
  }

  /** One page was given a frame of its own, at the cost of at most four frames of the pool. */
  ghost predicate Gave(s: State, root: bv64, owned: Owned, va: bv64, flags: bv64, s': State, owned': Owned) {
    && (exists f :: f in s.free && owned' == Grant(owned, va, Owner(f, flags)))
    && |s'.free| + 4 >= |s.free|
    && SameElsewhere(s.mem, s'.mem, root, {At(PageKey(va))})
  }

  lemma TakeThenMap(s: State, root: bv64, owned: Owned, va: bv64, f: bv64, flags: bv64, s': State)
    requires s.Ok(root) && Isolated(s, root, owned) && f in s.free
    requires MapsPage(Taken(s, f), root, va, LeafEntry(Owner(f, flags)), s')
    ensures Gave(s, root, owned, va, flags, s', Grant(owned, va, Owner(f, flags)))
  {
    TakeKeeps(s, root, owned, f);
    assert |Taken(s, f).free| == |s.free| - 1;
    forall va' | At(PageKey(va')) !in {At(PageKey(va))} ensures Walk(s'.mem, root, va') == Walk(s.mem, root, va') {
      PageKeyIffSamePage(va, va');
    }
  }

  // ---- Ranges

  /** A call of allocate_random_and_map; `random` stands for the draws of the random instance. */
  datatype Call = Call(bytes: bv64, virtAddr: bv64, flags: bv64, random: nat -> nat) {
    function Pages(): nat {
      (((bytes + 0xFFF) & !0xFFF) >> 12) as nat
    }

    function Base(): bv64 {
      AlignDown(virtAddr)
    }

    /** The pages that the call maps. */
    ghost function Range(): set<Addr> {
      Keys(Base(), 0, Pages())
    }
  }

  function AlignDown(va: bv64): bv64 {
    va & !0xFFF
  }

  lemma {:induction false} PagesAligned(va: bv64, i: nat)
    ensures IsAligned(PageAt(AlignDown(va), i), PAGE_SIZE)
  {
    if i > 0 {
      PagesAligned(va, i - 1);
      NextAligned(PageAt(AlignDown(va), i - 1));
    }
  }

  lemma NextAligned(x: bv64)
    requires IsAligned(x, PAGE_SIZE)
    ensures IsAligned(x + 4096, PAGE_SIZE)
  {}

  /** The keys of pages `lo` to `hi` of a range. */
  ghost function Keys(base: bv64, lo: nat, hi: nat): set<Addr> {
    set i | lo <= i < hi :: At(PageKey(PageAt(base, i)))
  }

  ghost predicate NoTranslation(m: Memory, root: bv64, ks: set<Addr>) {
    forall k :: k in ks ==> Walk(m, root, k.byte) == Unmapped
  }

  lemma WalkOfKey(m: Memory, root: bv64, va: bv64)
    ensures Walk(m, root, PageKey(va)) == Walk(m, root, va)
  {
    PageKeyTwice(va);
    PageKeyIffSamePage(va, PageKey(va));
    SamePageSameWalk(m, root, va, PageKey(va));
  }

  /** The pages `ks` are owned, earlier owners stay, other addresses translate as before. */
  ghost predicate GaveAll(s: State, root: bv64, owned: Owned, ks: set<Addr>, flags: bv64, n: nat, s': State,
                          owned': Owned) {
    && |s'.free| + 4 * n >= |s.free|
    && (AllClean(owned) && CleanFlags(flags) ==> AllClean(owned'))
    && (forall k :: k in owned ==> k in owned' && owned'[k] == owned[k])
    && (Present(flags) ==> forall k :: k in ks ==> k in owned' && owned'[k].flags == flags)
    && SameElsewhere(s.mem, s'.mem, root, ks)
  }

  lemma GrantKeeps(owned: Owned, va: bv64, o: Owner)
    requires At(PageKey(va)) !in owned
    ensures forall k :: k in owned ==> k in Grant(owned, va, o) && Grant(owned, va, o)[k] == owned[k]
    ensures Present(o.flags) ==> At(PageKey(va)) in Grant(owned, va, o) && Grant(owned, va, o)[At(PageKey(va))] == o
    ensures AllClean(owned) && CleanFlags(o.flags) ==> AllClean(Grant(owned, va, o))
  {
    var key := At(PageKey(va));
    if Present(LeafEntry(o)) {
      assert Grant(owned, va, o) == owned[key := o];
    } else {
      PresentOrNot(o);
      assert Grant(owned, va, o) == owned;
    }
  }

  lemma PresentOrNot(o: Owner)
    requires !Present(LeafEntry(o))
    ensures !Present(o.flags)
  {}

  lemma GaveNothing(s: State, root: bv64, owned: Owned, base: bv64, flags: bv64)
    ensures Keys(base, 0, 0) == {}
    ensures GaveAll(s, root, owned, Keys(base, 0, 0), flags, 0, s, owned)
  {}

  lemma GaveOneMore(s0: State, root: bv64, owned0: Owned, ks: set<Addr>, n: nat, va: bv64, flags: bv64,
                    s: State, owned: Owned, s': State, owned': Owned)
    requires GaveAll(s0, root, owned0, ks, flags, n, s, owned)
    requires Gave(s, root, owned, va, flags, s', owned')
    requires At(PageKey(va)) !in owned
    ensures GaveAll(s0, root, owned0, ks + {At(PageKey(va))}, flags, n + 1, s', owned')
  {
    var f :| f in s.free && owned' == Grant(owned, va, Owner(f, flags));
    GrantKeeps(owned, va, Owner(f, flags));
    ElsewhereTrans(s0.mem, s.mem, s'.mem, root, ks, {At(PageKey(va))});
  }

  lemma ElsewhereTrans(m0: Memory, m: Memory, m': Memory, root: bv64, ks: set<Addr>, ks': set<Addr>)
    requires SameElsewhere(m0, m, root, ks) && SameElsewhere(m, m', root, ks')
    ensures SameElsewhere(m0, m', root, ks + ks')
  {}

  // Pages that were not touched and had no translation still have none.
  lemma StillUnmapped(m: Memory, m': Memory, root: bv64, ks: set<Addr>, rest: set<Addr>)
    requires SameElsewhere(m, m', root, ks) && NoTranslation(m, root, rest) && ks !! rest
    requires forall k :: k in rest ==> PageKey(k.byte) == k.byte
    ensures NoTranslation(m', root, rest)
  {
    forall k | k in rest ensures Walk(m', root, k.byte) == Unmapped {
      assert At(PageKey(k.byte)) == k;
    }
  }

  lemma KeysAreKeys(base: bv64, lo: nat, hi: nat)
    ensures forall k :: k in Keys(base, lo, hi) ==> PageKey(k.byte) == k.byte
  {
    forall k | k in Keys(base, lo, hi) ensures PageKey(k.byte) == k.byte {
      var i :| lo <= i < hi && k == At(PageKey(PageAt(base, i)));
      PageKeyTwice(PageAt(base, i));
    }
  }

  // Splitting the range at `i`.
  lemma KeysSplit(base: bv64, n: nat, i: nat)
    requires i < n && DistinctPages(base, n)
    ensures Keys(base, 0, i + 1) == Keys(base, 0, i) + {At(PageKey(PageAt(base, i)))}
    ensures Keys(base, i, n) == {At(PageKey(PageAt(base, i)))} + Keys(base, i + 1, n)
    ensures At(PageKey(PageAt(base, i))) !in Keys(base, i + 1, n)
  {
    var k := At(PageKey(PageAt(base, i)));
    assert k in Keys(base, 0, i + 1) && k in Keys(base, i, n);
  }

  // ---- Sequences of calls

  /** Every call maps distinct pages, and no page is mapped by two calls. */
  ghost predicate DisjointCalls(calls: seq<Call>) {
    && (forall i :: 0 <= i < |calls| ==> DistinctPages(calls[i].Base(), calls[i].Pages()))
    && Disjoint(Ranges(calls))
  }

  ghost function Ranges(calls: seq<Call>): (rs: seq<set<Addr>>)
    ensures |rs| == |calls|
  {
    seq(|calls|, i requires 0 <= i < |calls| => calls[i].Range())
  }

  ghost predicate Disjoint(rs: seq<set<Addr>>) {
    forall i, j :: 0 <= i < j < |rs| ==> rs[i] !! rs[j]
  }

  ghost predicate ArePages(ks: set<Addr>) {
    forall k :: k in ks ==> PageKey(k.byte) == k.byte
  }

  lemma RangesArePages(calls: seq<Call>, i: nat)
    requires i < |calls|
    ensures ArePages(Ranges(calls)[i])
  {
    KeysAreKeys(calls[i].Base(), 0, calls[i].Pages());
  }

  ghost function TotalPages(calls: seq<Call>, n: nat): nat
    requires n <= |calls|
  {
    if n == 0 then 0 else TotalPages(calls, n - 1) + calls[n - 1].Pages()
  }

  lemma {:induction false} TotalGrows(calls: seq<Call>, i: nat, n: nat)
    requires i <= n <= |calls|
    ensures TotalPages(calls, i) <= TotalPages(calls, n)
  {
    if i < n {
      TotalGrows(calls, i, n - 1);
    }
  }

  ghost predicate RestUnmapped(m: Memory, root: bv64, rs: seq<set<Addr>>, i: nat) {
    forall j :: i <= j < |rs| ==> NoTranslation(m, root, rs[j])
  }

  ghost predicate OwnedWith(owned: Owned, ks: set<Addr>, flags: bv64) {
    Present(flags) ==> forall k :: k in ks ==> k in owned && owned[k].flags == flags
  }

  ghost predicate AllOwned(owned: Owned, calls: seq<Call>, i: nat)
    requires i <= |calls|
  {
    forall j :: 0 <= j < i ==> OwnedWith(owned, Ranges(calls)[j], calls[j].flags)
  }

  lemma CallKeepsRest(m: Memory, m': Memory, root: bv64, calls: seq<Call>, i: nat)
    requires i < |calls| && Disjoint(Ranges(calls))
    requires RestUnmapped(m, root, Ranges(calls), i)
    requires SameElsewhere(m, m', root, Ranges(calls)[i])
    ensures RestUnmapped(m', root, Ranges(calls), i + 1)
  {
    var rs := Ranges(calls);
    forall j | i + 1 <= j < |rs| ensures NoTranslation(m', root, rs[j]) {
      RangesArePages(calls, j);
      StillUnmapped(m, m', root, rs[i], rs[j]);
    }
  }

  lemma OwnedStays(owned: Owned, owned': Owned, ks: set<Addr>, flags: bv64)
    requires OwnedWith(owned, ks, flags)
    requires forall k :: k in owned ==> k in owned' && owned'[k] == owned[k]
    ensures OwnedWith(owned', ks, flags)
  {}

  lemma CallOwnsRange(s: State, root: bv64, owned: Owned, calls: seq<Call>, i: nat, n: nat, s': State, owned': Owned)
    requires i < |calls| && AllOwned(owned, calls, i)
    requires GaveAll(s, root, owned, Ranges(calls)[i], calls[i].flags, n, s', owned')
    ensures AllOwned(owned', calls, i + 1)
  {
    forall j | 0 <= j < i + 1 ensures OwnedWith(owned', Ranges(calls)[j], calls[j].flags) {
      if j < i {
        OwnedStays(owned, owned', Ranges(calls)[j], calls[j].flags);
      }
    }
  }

  ghost predicate CleanCalls(calls: seq<Call>) {
    forall i :: 0 <= i < |calls| ==> CleanFlags(calls[i].flags)
  }

  /**
   Where a run stands in state `s` after `i` calls, the pool having held `pool` frames; `clean`: no flags are
   stray.
   */
  ghost predicate RunState(s: State, root: bv64, owned: Owned, calls: seq<Call>, i: nat, pool: nat, clean: bool)
    requires i <= |calls|
  {
    && (clean ==> CleanCalls(calls) && AllClean(owned))
    && RestUnmapped(s.mem, root, Ranges(calls), i)
    && AllOwned(owned, calls, i)
    && |s.free| + 4 * TotalPages(calls, i) >= pool
  }

  lemma RunStep(s: State, root: bv64, owned: Owned, calls: seq<Call>, i: nat, pool: nat, clean: bool,
                s': State, owned': Owned)
    requires i < |calls| && Disjoint(Ranges(calls)) && RunState(s, root, owned, calls, i, pool, clean)
    requires GaveAll(s, root, owned, calls[i].Range(), calls[i].flags, calls[i].Pages(), s', owned')
    ensures RunState(s', root, owned', calls, i + 1, pool, clean)
  {
    assert Ranges(calls)[i] == calls[i].Range();
    CallKeepsRest(s.mem, s'.mem, root, calls, i);
    CallOwnsRange(s, root, owned, calls, i, calls[i].Pages(), s', owned');
  }

  lemma CallUnmapped(calls: seq<Call>, i: nat, m: Memory, root: bv64)
    requires i < |calls| && RestUnmapped(m, root, Ranges(calls), i)
    ensures NoTranslation(m, root, calls[i].Range())
  {
    assert Ranges(calls)[i] == calls[i].Range();
  }

  lemma PoolSuffices(s: State, root: bv64, owned: Owned, calls: seq<Call>, i: nat, pool: nat, clean: bool)
    requires i < |calls| && RunState(s, root, owned, calls, i, pool, clean) && pool >= 4 * TotalPages(calls, |calls|)
    ensures |s.free| >= 4 * calls[i].Pages()
  {
    TotalGrows(calls, i + 1, |calls|);
  }

  // ---- The address space and its calls

  class Space {
    const pagemap: Pagemap
    ghost var owned: Owned
    ghost var lasted: bool  // the pool has never been asked for a frame it did not have

    ghost predicate Valid()
      reads this, pagemap, pagemap.ram
    {
      && pagemap.Usable()
      && (lasted ==> pagemap.Valid() && Isolated(pagemap.Now(), pagemap.topLevel, owned))
      && (!lasted ==> pagemap.ram.Free() == {})
    }

    constructor (p: Pagemap)
      requires p.Valid()
      ensures pagemap == p && owned == map[] && lasted && Valid()
    {
      pagemap := p;
      owned := map[];
      lasted := true;
    }

    // allocate_page_random inside allocate_random_and_map.
    method TakeFrame(denoter: nat) returns (f: bv64)
      requires Valid()
      modifies this, pagemap, pagemap.ram
      ensures Valid() && owned == old(owned) && IsFrame(f)
      ensures lasted <==> old(lasted) && f != 0
      ensures f == 0 <==> old(pagemap.ram.Free()) == {}
      ensures lasted ==> pagemap.Now() == Taken(old(pagemap.Now()), f) && f in old(pagemap.Now()).free
    {
      ghost var s0 := pagemap.Now();
      f := pagemap.ram.AllocatePage(denoter);
      if f == 0 {
        lasted := false;
      } else if lasted {
        assert pagemap.Now() == Taken(s0, f);
        TakeKeeps(s0, pagemap.topLevel, owned, f);
      }
    }

    // map_page of a 4 KiB frame at an aligned address, which passes every test.
    method MapSmallFrame(va: bv64, o: Owner, d4: nat, d3: nat, d2: nat)
      requires pagemap.Usable() && IsAligned(va, PAGE_SIZE) && IsFrame(o.frame)
      modifies pagemap, pagemap.ram
      ensures SmallOutcome(old(pagemap.Now()), pagemap.topLevel, va, LeafEntry(o), pagemap.Now())
      ensures !Diverted(old(pagemap.Now()), pagemap.topLevel, va) ==> pagemap.ram.Valid()
    {
      SmallPagePasses(va, o.frame);
      var r := pagemap.MapPage(va, o.frame, 0, o.flags, d4, d3, d2);
    }

    // map_page inside allocate_random_and_map.
    method MapFrame(va: bv64, f: bv64, flags: bv64, d4: nat, d3: nat, d2: nat)
      requires Valid() && IsAligned(va, PAGE_SIZE) && IsFrame(f)
      requires lasted ==>
                 && Walk(pagemap.ram.mem, pagemap.topLevel, va) == Unmapped
                 && f !in pagemap.ram.Free() && At(f) !in pagemap.tables
                 && (forall k :: k in owned ==> owned[k].frame != f)
      modifies this, pagemap, pagemap.ram
      ensures Valid()
      ensures lasted <==> old(lasted && |pagemap.ram.Free()| >= Missing(pagemap.ram.mem, pagemap.topLevel, va, 1))
      ensures lasted ==>
                && owned == Grant(old(owned), va, Owner(f, flags))
                && MapsPage(old(pagemap.Now()), pagemap.topLevel, va, LeafEntry(Owner(f, flags)), pagemap.Now())
    {
      ghost var s := pagemap.Now();
      MapSmallFrame(va, Owner(f, flags), d4, d3, d2);
      ghost var s' := pagemap.Now();
      if lasted {
        OutcomeIsolated(s, pagemap.topLevel, owned, va, Owner(f, flags), s');
        if |s.free| < Missing(s.mem, pagemap.topLevel, va, 1) {
          lasted := false;
        } else {
          owned := Grant(owned, va, Owner(f, flags));
        }
      } else {
        DryStaysDry(s, pagemap.topLevel, va, LeafEntry(Owner(f, flags)), s');
      }
    }

    /** One round of allocate_random_and_map: a random frame, then map_page. */
    method GiveFrame(va: bv64, flags: bv64, d: nat, d4: nat, d3: nat, d2: nat)
      requires Valid() && IsAligned(va, PAGE_SIZE)
      requires lasted ==> Walk(pagemap.ram.mem, pagemap.topLevel, va) == Unmapped
      modifies this, pagemap, pagemap.ram
      ensures Valid()
      ensures lasted ==> old(lasted) && Gave(old(pagemap.Now()), pagemap.topLevel, old(owned), va, flags, pagemap.Now(),
                                             owned)
      ensures old(lasted) && |old(pagemap.ram.Free())| >= 4 ==> lasted
      ensures old(lasted) && pagemap.ram.Free() != {} ==> lasted
    {
      ghost var s0 := pagemap.Now();
      var f := TakeFrame(d);
      ghost var s1 := pagemap.Now();
      if lasted {
        TakeKeeps(s0, pagemap.topLevel, owned, f);
        assert |s1.free| == |s0.free| - 1;
      }
      MapFrame(va, f, flags, d4, d3, d2);
      if lasted {
        TakeThenMap(s0, pagemap.topLevel, old(owned), va, f, flags, pagemap.Now());
      }
    }

    /** The first `i` of the `n` pages of a range are done; the run began in `s0` with `lasted0`. */
    ghost predicate Progress(base: bv64, flags: bv64, n: nat, i: nat, s0: State, owned0: Owned, lasted0: bool)
      reads this, pagemap, pagemap.ram
    {
      && Valid()
      && (lasted ==>
            && lasted0
            && GaveAll(s0, pagemap.topLevel, owned0, Keys(base, 0, i), flags, i, pagemap.Now(), owned)
            && NoTranslation(pagemap.Now().mem, pagemap.topLevel, Keys(base, i, n)))
      && (lasted0 && |s0.free| >= 4 * n ==> lasted)
      && (lasted0 && pagemap.Now().free != {} ==> lasted)
    }

    // The loop body of allocate_random_and_map for page `i` of a range of `n`.
    method GivePage(c: Call, n: nat, i: nat, ghost s0: State, ghost owned0: Owned, ghost lasted0: bool)
      requires i < n && DistinctPages(c.Base(), n) && Progress(c.Base(), c.flags, n, i, s0, owned0, lasted0)
      modifies this, pagemap, pagemap.ram
      ensures Progress(c.Base(), c.flags, n, i + 1, s0, owned0, lasted0)
    {
      var va := PageAt(c.Base(), i);
      ghost var s, o := pagemap.Now(), owned;
      KeysSplit(c.Base(), n, i);
      if lasted {
        WalkOfKey(pagemap.ram.mem, pagemap.topLevel, va);
        UnmappedIsFree(s, pagemap.topLevel, o, va);
      }
      PagesAligned(c.virtAddr, i);
      GiveFrame(va, c.flags, c.random(4 * i), c.random(4 * i + 1), c.random(4 * i + 2), c.random(4 * i + 3));
      if lasted {
        GaveOneMore(s0, pagemap.topLevel, owned0, Keys(c.Base(), 0, i), i, va, c.flags, s, o, pagemap.Now(), owned);
        KeysAreKeys(c.Base(), i + 1, n);
        StillUnmapped(s.mem, pagemap.ram.mem, pagemap.topLevel, {At(PageKey(va))}, Keys(c.Base(), i + 1, n));
      }
    }

    method GivePages(c: Call, pages: nat)
      requires Valid() && DistinctPages(c.Base(), pages)
      requires lasted ==> NoTranslation(pagemap.Now().mem, pagemap.topLevel, Keys(c.Base(), 0, pages))
      modifies this, pagemap, pagemap.ram
      ensures Progress(c.Base(), c.flags, pages, pages, old(pagemap.Now()), old(owned), old(lasted))
    {
      ghost var s0, owned0, lasted0 := pagemap.Now(), owned, lasted;
      var page := 0;
      GaveNothing(s0, pagemap.topLevel, owned0, c.Base(), c.flags);
      while page < pages
        invariant page <= pages
        invariant Progress(c.Base(), c.flags, pages, page, s0, owned0, lasted0)
      {
        GivePage(c, pages, page, s0, owned0, lasted0);
        page := page + 1;
      }
    }

    /**
     Gives each page of a range a random frame of its own.
     */
    method AllocateRandomAndMap(c: Call) returns (addr: bv64)
      requires Valid() && DistinctPages(c.Base(), c.Pages())
      requires lasted ==> NoTranslation(pagemap.Now().mem, pagemap.topLevel, c.Range())
      modifies this, pagemap, pagemap.ram
      ensures addr == c.virtAddr
      ensures Progress(c.Base(), c.flags, c.Pages(), c.Pages(), old(pagemap.Now()), old(owned), old(lasted))
    {
      GivePages(c, c.Pages());
      addr := c.virtAddr;
    }

    /** The first `i` calls are done; the pool held `pool` frames at the start. */
    ghost predicate RunProgress(calls: seq<Call>, i: nat, pool: nat, clean: bool)
      requires i <= |calls|
      reads this, pagemap, pagemap.ram
    {
      && Valid()
      && (lasted ==> RunState(pagemap.Now(), pagemap.topLevel, owned, calls, i, pool, clean))
      && (pool >= 4 * TotalPages(calls, |calls|) ==> lasted)
      && (pagemap.Now().free != {} ==> lasted)
    }

    method CallOnce(calls: seq<Call>, i: nat, ghost pool: nat, ghost clean: bool)
      requires i < |calls| && DisjointCalls(calls) && RunProgress(calls, i, pool, clean)
      modifies this, pagemap, pagemap.ram
      ensures RunProgress(calls, i + 1, pool, clean)
    {
      ghost var s, o := pagemap.Now(), owned;
      if lasted {
        CallUnmapped(calls, i, s.mem, pagemap.topLevel);
        if pool >= 4 * TotalPages(calls, |calls|) {
          PoolSuffices(s, pagemap.topLevel, o, calls, i, pool, clean);
        }
      }
      var addr := AllocateRandomAndMap(calls[i]);
      if lasted {
        RunStep(s, pagemap.topLevel, o, calls, i, pool, clean, pagemap.Now(), owned);
      }
    }

    /**
     Any sequence of calls on disjoint, unmapped ranges: while the pool lasts, every page of every
     range is mapped to a frame of its own, and no such frame is free or a page table. If no flags
     reach into the address, those are the frames the processor finds.
     */
    method Run(calls: seq<Call>)
      requires Valid() && lasted && DisjointCalls(calls)
      requires RestUnmapped(pagemap.Now().mem, pagemap.topLevel, Ranges(calls), 0)
      modifies this, pagemap, pagemap.ram
      ensures Valid()
      ensures lasted ==> Isolated(pagemap.Now(), pagemap.topLevel, owned) && AllOwned(owned, calls, |calls|)
      ensures lasted && AllClean(old(owned)) && CleanCalls(calls) ==>
              PagesApart(pagemap.Now(), pagemap.topLevel, owned.Keys)
      ensures |old(pagemap.Now()).free| >= 4 * TotalPages(calls, |calls|) ==> lasted
      ensures pagemap.Now().free != {} ==> lasted
    {
      ghost var pool, clean := |pagemap.Now().free|, AllClean(owned) && CleanCalls(calls);
      var i := 0;
      while i < |calls|
        invariant i <= |calls|
        invariant RunProgress(calls, i, pool, clean)
      {
        CallOnce(calls, i, pool, clean);
        i := i + 1;
      }
      if lasted && clean {
        CleanPagesApart(pagemap.Now(), pagemap.topLevel, owned);
      }
    }
  }
}
