/**
 * The guest's nested page tables (ymirc/arch/x86/svm_npt.c): a level-4 table and
 * 2MiB leaves, with tables taken from the page allocator as they are needed.
 */
module NestedPaging {
  import opened Bits
  import opened Memory
  import opened PageTables
  import opened Wrappers
  import opened PageAllocator
  import opened TablePages
  import opened Arithmetic

  /**
   * An entry as the nested tables hold them: zero, or one that grants everything
   * and in which the code and the processor find the same frame.
   */
  ghost predicate OpenEntry(e: Word) {
    if e[ENTRY_PRESENT] then Plain(e) && GrantsAll(Decode(e)) else e == Zero()
  }

  ghost predicate GrantsAll(e: Pte) {
    e.Entry? && e.writable && !e.noExecute && e.user
  }

  ghost predicate OpenEntries(m: Words, tables: set<nat>) {
    forall t, i | t in tables && 0 <= i < 512 :: OpenEntry(InFrame(m, t, i))
  }

  // ---------------------------------------------------------------- what a nested tree looks like

  /** A tree of tables at levels 4 to 2 whose only leaves are at level 2. */
  ghost predicate Nested(m: Words, root: nat, tables: set<nat>) {
    && Tree(Decoded(m), root) && TablesIn(Decoded(m), root, tables) && OpenEntries(m, tables)
    && LeavesAtLevelTwo(Decoded(m), root)
  }

  ghost predicate LeavesAtLevelTwo(v: View, root: nat) {
    && (forall p: nat :: Table(v, root, 1, p) == None)
    && (forall l, p: nat, t: nat, i: nat {:trigger Table(v, root, l, p), Slot(v, t, i)} ::
          3 <= l <= 4 && i < 512 && Table(v, root, l, p) == Some(t) && Slot(v, t, i).Entry? ==> !Slot(v, t, i).large)
  }

  /** Filling a frame that is no table of the tree leaves the tree and its translations alone. */
  lemma OutsideTheTree(m: Words, n: Words, root: nat, tables: set<nat>, g: nat)
    requires Nested(m, root, tables) && OnlyFrames(m, n, {g}) && g !in tables
    ensures Nested(n, root, tables)
    ensures forall l, p {:trigger Table(Decoded(n), root, l, p)} | 1 <= l <= 4 && 0 <= p ::
              Table(Decoded(n), root, l, p) == Table(Decoded(m), root, l, p)
    ensures SameWalks(Decoded(m), Decoded(n), root)
  {
    FramesKept(m, n, {g});
    forall f | f in tables
      ensures SameSlots(Decoded(m), Decoded(n), f) && SameFrame(m, n, f)
    {
      SameFrameSameSlots(m, n, f);
    }
    TreeUnchanged(Decoded(m), Decoded(n), root, tables);
  }

  /** The tables of the tree are those of v, and one at level l for page q. */
  ghost predicate TableAdded(v: View, v': View, root: nat, l: nat, q: nat, t: nat) {
    forall j, p {:trigger Table(v', root, j, p)} | 1 <= j <= 4 && 0 <= p ::
      Table(v', root, j, p) == if j == l && p == q then Some(t) else Table(v, root, j, p)
  }

  /** Hanging a zeroed table into a slot that is not present. */
  lemma TableHung(m: Words, n: Words, root: nat, tables: set<nat>, l: nat, q: nat, t: nat, g: nat, e: Word)
    requires Nested(m, root, tables) && 3 <= l <= 4 && Table(Decoded(m), root, l, q / 512) == Some(t)
    requires n == m[512 * t + q % 512 := e] && Decode(InFrame(m, t, q % 512)).Absent?
    requires GrantsAll(Decode(e)) && !Decode(e).large && Decode(e).frame == g && Plain(e)
    requires g !in tables && forall i | 0 <= i < 512 :: InFrame(m, g, i) == Zero()
    ensures Nested(n, root, tables + {g}) && TableAdded(Decoded(m), Decoded(n), root, l - 1, q, g)
    ensures SameWalks(Decoded(m), Decoded(n), root)
  {
    var v, v' := Decoded(m), Decoded(n);
    assert t in tables;
    StoreIsOneSlot(m, t, q % 512, e);
    SlotDecodes(m, t, q % 512);
    assert Fills(v, v', root, l, q, t, Decode(e));
    forall i | 0 <= i < 512
      ensures Slot(v', g, i).Absent?
    {
      SlotDecodes(m, g, i);
      assert InFrame(m, g, i) == Zero();
    }
    EmptyTableIsAdded(v, v', root, l, q, t, Decode(e), tables);
    EmptyTableIsInvisible(v, v', root, l, q, t, Decode(e));
    HungLeaves(v, v', root, l, q, t, Decode(e));
    HungPlain(m, n, tables, t, q % 512, e, g);
  }

  lemma HungLeaves(v: View, v': View, root: nat, l: nat, q: nat, t: nat, e: Pte)
    requires LeavesAtLevelTwo(v, root) && 3 <= l <= 4 && Fills(v, v', root, l, q, t, e) && !e.Absent? && !e.large
    requires forall i | 0 <= i < 512 :: Slot(v', e.frame, i).Absent?
    requires forall j, p {:trigger Table(v', root, j, p)} | 1 <= j <= 4 && 0 <= p ::
              Table(v', root, j, p) == if j == l - 1 && p == q then Some(e.frame) else Table(v, root, j, p)
    ensures LeavesAtLevelTwo(v', root)
  {
    forall j, p: nat, u: nat, i: nat | 3 <= j <= 4 && i < 512 && Table(v', root, j, p) == Some(u)
      ensures Slot(v', u, i).Entry? ==> !Slot(v', u, i).large
    {
      if j == l - 1 && p == q {
        assert Slot(v', e.frame, i).Absent?;
      } else if u != t || i != q % 512 {
        assert Slot(v', u, i) == Slot(v, u, i);
      }
    }
  }

  lemma HungPlain(m: Words, n: Words, tables: set<nat>, t: nat, i: nat, e: Word, g: nat)
    requires OpenEntries(m, tables) && t in tables && i < 512 && n == m[512 * t + i := e] && OpenEntry(e)
    requires forall j | 0 <= j < 512 :: InFrame(m, g, j) == Zero()
    ensures OpenEntries(n, tables + {g})
  {
    forall u, j | u in tables + {g} && 0 <= j < 512
      ensures OpenEntry(InFrame(n, u, j))
    {
      if u != t || j != i {
        assert InFrame(n, u, j) == InFrame(m, u, j);
      }
    }
  }

  /** allocate_table and initialize_table_reference_entry together, on memory before, between and after. */
  lemma TableCreated(m: Words, c: Words, n: Words, root: nat, tables: set<nat>, l: nat, q: nat, t: nat, g: nat, e: Word)
    requires Nested(m, root, tables) && 3 <= l <= 4 && Table(Decoded(m), root, l, q / 512) == Some(t)
    requires OnlyFrames(m, c, {g}) && g !in tables && g < FRAME_LIMIT
    requires forall i | 0 <= i < 512 :: InFrame(c, g, i) == Zero()
    requires !InFrame(m, t, q % 512)[ENTRY_PRESENT]
    requires GrantsAll(Decode(e)) && !Decode(e).large && Decode(e).frame == g && Plain(e)
    requires n == c[512 * t + q % 512 := e]
    ensures Nested(n, root, tables + {g}) && OnlyFrames(m, n, tables + {g})
    ensures TableAdded(Decoded(m), Decoded(n), root, l - 1, q, g) && CodeFrame(InFrame(n, t, q % 512)) == g
    ensures SameWalks(Decoded(m), Decoded(n), root)
  {
    hide Tree, TablesIn, OpenEntries, LeavesAtLevelTwo, SameWalks, Table, Walk, WalkFrom;
    assert t in tables by { TableIsIn(m, root, tables, l, q, t); }
    OutsideTheTree(m, c, root, tables, g);
    FramesKept(m, c, {g});
    assert InFrame(c, t, q % 512) == InFrame(m, t, q % 512);
    TableHung(c, n, root, tables, l, q, t, g, e);
    SameWalksCompose(Decoded(m), Decoded(c), Decoded(n), root);
    assert (512 * t + q % 512) / 512 == t;
  }

  /** Page q's slot at level l has a table below it, created if the entry is not present. */
  method EnsureTable(
      pa: Allocator, mem: PhysicalMemory, reconstructed: bool, root: nat, ghost tables: set<nat>, l: nat, q: nat,
      t: nat)
    returns (ok: bool, next: nat, ghost tables': set<nat>)
    requires pa.Valid() && tables <= pa.used && Nested(mem.words, root, tables)
    requires 3 <= l <= 4 && Table(Decoded(mem.words), root, l, q / 512) == Some(t)
    modifies pa`used, pa`live, pa.bitmap, mem
    ensures pa.Valid()
    ensures Nested(mem.words, root, tables') && Grown(old(pa.used), tables, pa.used, tables', pa.frameEnd)
    ensures OnlyFrames(old(mem.words), mem.words, tables')
    ensures SameWalks(Decoded(old(mem.words)), Decoded(mem.words), root)
    ensures AfterPages(old(pa.used), pa.frameEnd, Missing(Decoded(old(mem.words)), root, l - 1, q))
            == if ok then Some(pa.used) else None
    ensures ok ==> TableAdded(Decoded(old(mem.words)), Decoded(mem.words), root, l - 1, q, next)
    ensures Missing(Decoded(old(mem.words)), root, l - 1, q) == 0 ==> mem.words == old(mem.words)
  {
    hide Tree, TablesIn, OpenEntries, LeavesAtLevelTwo, SameWalks, Table, Walk, WalkFrom, Allocator.Valid, TableAdded,
         Search;
    ghost var before := mem.words;
    TableIsIn(mem.words, root, tables, l, q, t);
    OnePage(pa.used, pa.frameEnd);
    SameWalksReflexive(Decoded(before), root);
    var entry := InFrame(mem.words, t, q % 512);
    ok, tables' := true, tables;
    SlotIsOpen(before, root, tables, t, q % 512);
    if !entry[ENTRY_PRESENT] {
      AbsentTable(before, root, l, q, t);
      var g;
      ok, g := AllocateTable(pa, mem, reconstructed);
      if !ok {
        next := 0;
        return;
      }
      ghost var cleared := mem.words;
      var e := InitTableReference(entry, g * PAGE_SIZE, true);
      mem.Store(512 * t + q % 512, e);
      tables' := tables + {g};
      TableCreated(before, cleared, mem.words, root, tables, l, q, t, g, e);
    } else {
      PresentTable(before, root, tables, l, q, t);
    }
    next := CodeFrame(InFrame(mem.words, t, q % 512));
  }

  /** How many tables an address page lacks at a level: one or none. */
  ghost function Missing(v: View, root: nat, l: nat, q: nat): nat
    requires 1 <= l <= 4
  {
    if Table(v, root, l, q).Some? then 0 else 1
  }

  lemma SameWalksReflexive(v: View, root: nat)
    ensures SameWalks(v, v, root)
  {
  }

  lemma AbsentTable(m: Words, root: nat, l: nat, q: nat, t: nat)
    requires 3 <= l <= 4 && Table(Decoded(m), root, l, q / 512) == Some(t) && !InFrame(m, t, q % 512)[ENTRY_PRESENT]
    ensures Table(Decoded(m), root, l - 1, q) == None
  {
    SlotDecodes(m, t, q % 512);
  }

  lemma PresentTable(m: Words, root: nat, tables: set<nat>, l: nat, q: nat, t: nat)
    requires Nested(m, root, tables) && 3 <= l <= 4 && Table(Decoded(m), root, l, q / 512) == Some(t)
    requires InFrame(m, t, q % 512)[ENTRY_PRESENT]
    ensures Table(Decoded(m), root, l - 1, q) == Some(CodeFrame(InFrame(m, t, q % 512)))
    ensures TableAdded(Decoded(m), Decoded(m), root, l - 1, q, CodeFrame(InFrame(m, t, q % 512)))
  {
    assert t in tables;
    SlotDecodes(m, t, q % 512);
    assert !Slot(Decoded(m), t, q % 512).large;
  }

  /** The tables have grown by frames that were free and are now used. */
  ghost predicate Grown(used: set<nat>, tables: set<nat>, used': set<nat>, tables': set<nat>, frameEnd: nat) {
    && tables <= tables' && used' == used + tables'
    && (forall f | f in tables' && f in used :: f in tables)
    && (forall f | f in tables' && f !in tables :: 1 <= f < frameEnd)
  }

  // ---------------------------------------------------------------- map2m

  /** In a nested tree an address translates if and only if its level-2 table has an entry for it. */
  lemma FaultMeansAbsent(v: View, root: nat, t: nat, a: nat)
    requires LeavesAtLevelTwo(v, root) && a < ADDRESS_LIMIT && Table(v, root, 2, Page(a, 3)) == Some(t)
    ensures Walk(v, root, a) == Fault <==> Slot(v, t, Page(a, 2) % 512).Absent?
  {
    WalkPasses(v, root, 2, t, a);
    assert Table(v, root, 1, Page(a, 2)) == None;
  }

  ghost predicate SameTables(v: View, v': View, root: nat) {
    forall j, p {:trigger Table(v', root, j, p)} | 1 <= j <= 4 && 0 <= p ::
      Table(v', root, j, p) == Table(v, root, j, p)
  }

  /** Storing a 2MiB leaf into an absent level-2 slot. */
  lemma LeafStored(m: Words, n: Words, root: nat, tables: set<nat>, q: nat, t: nat, e: Word)
    requires Nested(m, root, tables) && Table(Decoded(m), root, 2, q / 512) == Some(t)
    requires Slot(Decoded(m), t, q % 512).Absent? && n == m[512 * t + q % 512 := e]
    requires GrantsAll(Decode(e)) && Decode(e).large && Plain(e)
    ensures Nested(n, root, tables) && OnlyFrames(m, n, tables) && SameTables(Decoded(m), Decoded(n), root)
    ensures forall a: nat | a < ADDRESS_LIMIT ::
              Walk(Decoded(n), root, a) == if Page(a, 2) == q then
                                             Mapped(LeafAddress(Decode(e).frame, 2, a), Decode(e))
                                           else Walk(Decoded(m), root, a)
  {
    hide Tree, TablesIn, OpenEntries, LeavesAtLevelTwo, Table, Walk, WalkFrom;
    TableIsIn(m, root, tables, 2, q, t);
    assert (512 * t + q % 512) / 512 == t;
    StoreIsOneSlot(m, t, q % 512, e);
    LeafIsPointUpdate(Decoded(m), Decoded(n), root, 2, q, t, Decode(e));
    LeafKeepsTables(Decoded(m), Decoded(n), root, 2, q, t, Decode(e), tables);
    LeafKeepsShape(Decoded(m), Decoded(n), root, q, t, Decode(e));
    PlainStored(m, n, tables, t, q % 512, e);
  }

  lemma PlainStored(m: Words, n: Words, tables: set<nat>, t: nat, i: nat, e: Word)
    requires OpenEntries(m, tables) && i < 512 && n == m[512 * t + i := e] && OpenEntry(e)
    ensures OpenEntries(n, tables)
  {
    forall u, j | u in tables && 0 <= j < 512
      ensures OpenEntry(InFrame(n, u, j))
    {
      if u != t || j != i {
        assert InFrame(n, u, j) == InFrame(m, u, j);
      }
    }
  }

  lemma LeafKeepsShape(v: View, v': View, root: nat, q: nat, t: nat, e: Pte)
    requires LeavesAtLevelTwo(v, root) && Tree(v, root) && Fills(v, v', root, 2, q, t, e)
    requires forall j, p {:trigger Table(v', root, j, p)} | 1 <= j <= 4 && 0 <= p ::
              Table(v', root, j, p) == Table(v, root, j, p)
    ensures LeavesAtLevelTwo(v', root)
  {
    forall l, p: nat, u: nat, i: nat | 3 <= l <= 4 && i < 512 && Table(v', root, l, p) == Some(u)
      ensures Slot(v', u, i).Entry? ==> !Slot(v', u, i).large
    {
      assert Table(v, root, l, p) == Some(u);
      assert u != t;
      assert Slot(v', u, i) == Slot(v, u, i);
    }
  }

  /** How many tables map2m has to add for an address. */
  ghost function Needed(v: View, root: nat, gpa: nat): nat {
    Missing(v, root, 3, Page(gpa, 4)) + Missing(v, root, 2, Page(gpa, 3))
  }

  /** The tables of the tree are those of v, and those on the way to gpa. */
  ghost predicate PathAdded(v: View, v': View, root: nat, gpa: nat) {
    && (forall p: nat :: Table(v', root, 3, p).Some? <==> Table(v, root, 3, p).Some? || p == Page(gpa, 4))
    && (forall p: nat :: Table(v', root, 2, p).Some? <==> Table(v, root, 2, p).Some? || p == Page(gpa, 3))
  }

  lemma BothAdded(v: View, v': View, v'': View, root: nat, gpa: nat, lv3: nat, lv2: nat)
    requires TableAdded(v, v', root, 3, Page(gpa, 4), lv3) && TableAdded(v', v'', root, 2, Page(gpa, 3), lv2)
    ensures PathAdded(v, v'', root, gpa) && Missing(v', root, 2, Page(gpa, 3)) == Missing(v, root, 2, Page(gpa, 3))
    ensures Table(v'', root, 2, Page(gpa, 3)) == Some(lv2)
  {
    hide Table, Page;
  }

  lemma FirstAdded(v: View, v': View, root: nat, gpa: nat, lv3: nat)
    requires TableAdded(v, v', root, 3, Page(gpa, 4), lv3)
    ensures Missing(v', root, 2, Page(gpa, 3)) == Missing(v, root, 2, Page(gpa, 3))
    ensures Table(v', root, 3, Page(gpa, 4)) == Some(lv3)
  {
    hide Table, Page;
  }

  lemma RootOnPath(v: View, root: nat, gpa: nat)
    requires gpa < ADDRESS_LIMIT
    ensures Table(v, root, 4, Page(gpa, 4) / 512) == Some(root) && Page(gpa, 4) == Page(gpa, 3) / 512
  {
    PageNumbers(gpa);
    assert Page(gpa, 5) == Page(gpa, 4) / 512;
  }

  lemma GrownCompose(
      u0: set<nat>, t0: set<nat>, u1: set<nat>, t1: set<nat>, u2: set<nat>, t2: set<nat>,
      m0: Words, m1: Words, m2: Words, end: nat)
    requires Grown(u0, t0, u1, t1, end) && Grown(u1, t1, u2, t2, end)
    requires OnlyFrames(m0, m1, t1) && OnlyFrames(m1, m2, t2)
    ensures Grown(u0, t0, u2, t2, end) && OnlyFrames(m0, m2, t2)
  {
  }

  /** The first half of map2m: the level-2 table for an address, with the tables above it. */
  method LevelTwoTable(
      gpa: nat, root: nat, pa: Allocator, mem: PhysicalMemory, reconstructed: bool, ghost tables: set<nat>)
    returns (ok: bool, lv2table: nat, ghost tables': set<nat>)
    requires pa.Valid() && tables <= pa.used && Nested(mem.words, root, tables) && gpa < ADDRESS_LIMIT
    modifies pa`used, pa`live, pa.bitmap, mem
    ensures pa.Valid()
    ensures Nested(mem.words, root, tables') && Grown(old(pa.used), tables, pa.used, tables', pa.frameEnd)
    ensures OnlyFrames(old(mem.words), mem.words, tables')
    ensures SameWalks(Decoded(old(mem.words)), Decoded(mem.words), root)
    ensures AfterPages(old(pa.used), pa.frameEnd, Needed(Decoded(old(mem.words)), root, gpa))
            == if ok then Some(pa.used) else None
    ensures ok ==> Table(Decoded(mem.words), root, 2, Page(gpa, 3)) == Some(lv2table)
    ensures ok ==> PathAdded(Decoded(old(mem.words)), Decoded(mem.words), root, gpa)
    ensures Needed(Decoded(old(mem.words)), root, gpa) == 0 ==> mem.words == old(mem.words)
  {
    hide Tree, TablesIn, OpenEntries, LeavesAtLevelTwo, SameWalks, Walk, WalkFrom, Allocator.Valid, Nested, Grown,
         OnlyFrames, TableAdded, PathAdded, AfterPages, Missing, Page, Table;
    ghost var m0, u0 := mem.words, pa.used;
    RootOnPath(Decoded(m0), root, gpa);
    var lv3table;
    lv2table := 0;
    ok, lv3table, tables' := EnsureTable(pa, mem, reconstructed, root, tables, 4, Page(gpa, 4), root);
    ghost var m1, u1, t1 := mem.words, pa.used, tables';
    PagesCompose(u0, pa.frameEnd, Missing(Decoded(m0), root, 3, Page(gpa, 4)),
                 Missing(Decoded(m0), root, 2, Page(gpa, 3)));
    if ok {
      FirstAdded(Decoded(m0), Decoded(m1), root, gpa, lv3table);
      TablesAreUsed(u0, tables, u1, t1, pa.frameEnd);
      ok, lv2table, tables' := EnsureTable(pa, mem, reconstructed, root, tables', 3, Page(gpa, 3), lv3table);
      GrownCompose(u0, tables, u1, t1, pa.used, tables', m0, m1, mem.words, pa.frameEnd);
      SameWalksCompose(Decoded(m0), Decoded(m1), Decoded(mem.words), root);
      if ok {
        BothAdded(Decoded(m0), Decoded(m1), Decoded(mem.words), root, gpa, lv3table, lv2table);
      }
    }
  }

  lemma TablesAreUsed(used: set<nat>, tables: set<nat>, used': set<nat>, tables': set<nat>, frameEnd: nat)
    requires Grown(used, tables, used', tables', frameEnd)
    ensures tables' <= used'
  {
  }

  lemma PageAbove(a: nat)
    ensures Page(a, 3) == Page(a, 2) / 512
  {
  }

  /** Where a 2MiB leaf leads. */
  lemma LeafPlaces(hpa: nat)
    requires hpa % PAGE_SIZE_2MB == 0
    ensures forall a: nat :: LeafAddress(hpa / PAGE_SIZE, 2, a) == hpa + a % PAGE_SIZE_2MB
  {
    LargePageFrame(hpa);
  }

  /**
   * map2m: a point update of the guest's memory map. The panic on an address that
   * is mapped already occurs exactly there, and changes nothing; otherwise the
   * tables that are missing on the way are allocated, or do not come together.
   */
  method Map2M(
      gpa: nat, hpa: nat, root: nat, pa: Allocator, mem: PhysicalMemory, reconstructed: bool, ghost tables: set<nat>)
    returns (r: Outcome, ghost tables': set<nat>)
    requires pa.Valid() && tables <= pa.used && Nested(mem.words, root, tables)
    requires gpa < ADDRESS_LIMIT && hpa < FRAME_LIMIT * PAGE_SIZE && hpa % PAGE_SIZE_2MB == 0
    modifies pa`used, pa`live, pa.bitmap, mem
    ensures pa.Valid()
    ensures Nested(mem.words, root, tables') && Grown(old(pa.used), tables, pa.used, tables', pa.frameEnd)
    ensures OnlyFrames(old(mem.words), mem.words, tables')
    ensures AfterPages(old(pa.used), pa.frameEnd, Needed(Decoded(old(mem.words)), root, gpa))
            == if r == OutOfMemory then None else Some(pa.used)
    ensures r == AlreadyMapped ==> Walk(Decoded(old(mem.words)), root, gpa).Mapped? && mem.words == old(mem.words)
    ensures r == Done ==> Walk(Decoded(old(mem.words)), root, gpa) == Fault
    ensures r == Done ==> PathAdded(Decoded(old(mem.words)), Decoded(mem.words), root, gpa)
    ensures r != Done ==> SameWalks(Decoded(old(mem.words)), Decoded(mem.words), root)
    ensures r == Done ==> forall a: nat | a < ADDRESS_LIMIT ::
              if Page(a, 2) == Page(gpa, 2) then
                && Walk(Decoded(mem.words), root, a).Mapped?
                && Walk(Decoded(mem.words), root, a).phys == hpa + a % PAGE_SIZE_2MB
                && RightsFrom(Decoded(mem.words), root, 4, a) == Rights(true, true, true)
              else Walk(Decoded(mem.words), root, a) == Walk(Decoded(old(mem.words)), root, a)
  {
    hide Tree, TablesIn, OpenEntries, LeavesAtLevelTwo, Table, Walk, WalkFrom, Plain, Allocator.Valid, Page,
         LeafAddress, Grown, PathAdded, AfterPages, Needed, OnlyFrames, SameTables;
    ghost var m0 := mem.words;
    var ok, lv2table;
    ok, lv2table, tables' := LevelTwoTable(gpa, root, pa, mem, reconstructed, tables);
    if !ok {
      return OutOfMemory, tables';
    }
    ghost var m2 := mem.words;
    PageAbove(gpa);
    var lv2ent := InFrame(mem.words, lv2table, Page(gpa, 2) % 512);
    FaultMeansAbsent(Decoded(m2), root, lv2table, gpa);
    SlotDecodes(m2, lv2table, Page(gpa, 2) % 512);
    TableIsIn(m2, root, tables', 2, Page(gpa, 2), lv2table);
    SlotIsOpen(m2, root, tables', lv2table, Page(gpa, 2) % 512);
    if lv2ent[ENTRY_PRESENT] {
      MappedHasTables(m0, root, tables, gpa);
      return AlreadyMapped, tables';
    }
    var e := InitPageReference(lv2ent, hpa, true);
    mem.Store(512 * lv2table + Page(gpa, 2) % 512, e);
    LeafStored(m2, mem.words, root, tables', Page(gpa, 2), lv2table, e);
    OnlyFramesCompose(m0, m2, mem.words, tables');
    PathStays(Decoded(m0), Decoded(m2), Decoded(mem.words), root, gpa);
    NestedGrants(mem.words, root, tables');
    LeafPlaces(hpa);
    r := Done;
  }

  /** In a nested tree an address that translates has both tables on its way. */
  lemma MappedHasTables(m: Words, root: nat, tables: set<nat>, a: nat)
    requires Nested(m, root, tables) && a < ADDRESS_LIMIT && Walk(Decoded(m), root, a).Mapped?
    ensures Needed(Decoded(m), root, a) == 0
  {
    hide Tree, TablesIn, OpenEntries;
    var v := Decoded(m);
    RootOnPath(v, root, a);
    assert !Slot(v, root, Page(a, 4) % 512).large;
    var lv3 := Slot(v, root, Page(a, 4) % 512).frame;
    assert Table(v, root, 3, Page(a, 4)) == Some(lv3);
    assert WalkFrom(v, root, 4, a) == WalkFrom(v, lv3, 3, a);
    assert !Slot(v, lv3, Page(a, 3) % 512).large;
  }

  /** In a nested tree every address that translates may be read, written and executed by the guest. */
  lemma NestedGrants(m: Words, root: nat, tables: set<nat>)
    requires Nested(m, root, tables)
    ensures forall a: nat | a < ADDRESS_LIMIT && Walk(Decoded(m), root, a).Mapped? ::
              RightsFrom(Decoded(m), root, 4, a) == Rights(true, true, true)
  {
    forall a: nat | a < ADDRESS_LIMIT && Walk(Decoded(m), root, a).Mapped?
      ensures RightsFrom(Decoded(m), root, 4, a) == Rights(true, true, true)
    {
      RootOnPath(Decoded(m), root, a);
      PageNumbers(a);
      GrantsFrom(m, root, tables, 4, root, a);
    }
  }

  lemma {:induction false} GrantsFrom(m: Words, root: nat, tables: set<nat>, l: nat, t: nat, a: nat)
    requires TablesIn(Decoded(m), root, tables) && OpenEntries(m, tables)
    requires 1 <= l <= 4 && Table(Decoded(m), root, l, Page(a, l + 1)) == Some(t)
    requires WalkFrom(Decoded(m), t, l, a).Mapped?
    ensures RightsFrom(Decoded(m), t, l, a) == Rights(true, true, true)
    decreases l
  {
    hide Plain;
    var v, i := Decoded(m), Page(a, l) % 512;
    SlotDecodes(m, t, i);
    assert t in tables;
    assert OpenEntry(InFrame(m, t, i));
    var e := Slot(v, t, i);
    if l > 1 && !e.large {
      assert Page(a, l + 1) == Page(a, l) / 512;
      assert Table(v, root, l - 1, Page(a, l)) == Some(e.frame);
      GrantsFrom(m, root, tables, l - 1, e.frame, a);
    }
  }

  lemma SlotIsOpen(m: Words, root: nat, tables: set<nat>, t: nat, i: nat)
    requires Nested(m, root, tables) && t in tables && i < 512
    ensures OpenEntry(InFrame(m, t, i))
  {
  }

  lemma OnlyFramesCompose(m0: Words, m1: Words, m2: Words, frames: set<nat>)
    requires OnlyFrames(m0, m1, frames) && OnlyFrames(m1, m2, frames)
    ensures OnlyFrames(m0, m2, frames)
  {
  }

  lemma PathStays(v: View, v': View, v'': View, root: nat, gpa: nat)
    requires PathAdded(v, v', root, gpa) && SameTables(v', v'', root)
    ensures PathAdded(v, v'', root, gpa)
  {
    hide Table, Page;
  }

  // ---------------------------------------------------------------- init_npt

  /**
   * The first n 2MiB pages from `guest` translate to those from `host`, with every
   * right the guest can use, and nothing else translates.
   */
  ghost predicate Exact(v: View, root: nat, guest: nat, host: nat, n: nat) {
    forall a: nat | a < ADDRESS_LIMIT ::
      if guest <= a < guest + n * PAGE_SIZE_2MB then
        && Walk(v, root, a).Mapped? && Walk(v, root, a).phys == host + (a - guest)
        && RightsFrom(v, root, 4, a) == Rights(true, true, true)
      else
        Walk(v, root, a) == Fault
  }

  /** A zeroed level-4 table is the root of an empty tree. */
  lemma {:induction false} EmptyTree(v: View, root: nat, l: nat, p: nat)
    requires 1 <= l <= 4 && forall i | 0 <= i < 512 :: Slot(v, root, i).Absent?
    ensures Table(v, root, l, p) == if l == 4 && p == 0 then Some(root) else None
    decreases 4 - l
  {
    if l < 4 {
      EmptyTree(v, root, l + 1, p / 512);
    }
  }

  lemma EmptyIsNested(m: Words, root: nat, guest: nat, host: nat)
    requires forall i | 0 <= i < 512 :: InFrame(m, root, i) == Zero()
    ensures Nested(m, root, {root}) && Exact(Decoded(m), root, guest, host, 0)
    ensures TablesTouched(Decoded(m), root, guest, 0)
  {
    forall i | 0 <= i < 512
      ensures Slot(Decoded(m), root, i).Absent?
    {
      SlotDecodes(m, root, i);
      assert InFrame(m, root, i) == Zero();
    }
    forall l, p | 1 <= l <= 4 && 0 <= p
      ensures Table(Decoded(m), root, l, p) == if l == 4 && p == 0 then Some(root) else None
    {
      EmptyTree(Decoded(m), root, l, p);
    }
    forall a: nat | a < ADDRESS_LIMIT
      ensures Walk(Decoded(m), root, a) == Fault
    {
      assert Slot(Decoded(m), root, Page(a, 4) % 512).Absent?;
    }
  }

  /** One more page mapped. */
  lemma ExactExtends(v: View, v': View, root: nat, guest: nat, host: nat, n: nat)
    requires Exact(v, root, guest, host, n)
    requires guest % PAGE_SIZE_2MB == 0 && host % PAGE_SIZE_2MB == 0
    requires forall a: nat | a < ADDRESS_LIMIT ::
              if Page(a, 2) == Page(guest + PAGE_SIZE_2MB * n, 2) then
                && Walk(v', root, a).Mapped?
                && Walk(v', root, a).phys == host + PAGE_SIZE_2MB * n + a % PAGE_SIZE_2MB
              else Walk(v', root, a) == Walk(v, root, a)
    requires forall a: nat | a < ADDRESS_LIMIT && Walk(v', root, a).Mapped? ::
               RightsFrom(v', root, 4, a) == Rights(true, true, true)
    ensures Exact(v', root, guest, host, n + 1)
  {
    hide Walk, WalkFrom, Page, RightsFrom;
    var base := guest + PAGE_SIZE_2MB * n;
    forall a: nat | a < ADDRESS_LIMIT
      ensures if guest <= a < guest + (n + 1) * PAGE_SIZE_2MB then
                && Walk(v', root, a).Mapped? && Walk(v', root, a).phys == host + (a - guest)
                && RightsFrom(v', root, 4, a) == Rights(true, true, true)
              else
                Walk(v', root, a) == Fault
    {
      InLargePage(a, base);
    }
  }

  /** The addresses of one 2MiB page. */
  lemma InLargePage(a: nat, base: nat)
    requires base % PAGE_SIZE_2MB == 0
    ensures Page(a, 2) == Page(base, 2) <==> base <= a < base + PAGE_SIZE_2MB
    ensures base <= a < base + PAGE_SIZE_2MB ==> a % PAGE_SIZE_2MB == a - base
  {
    PageNumbers(a);
    PageNumbers(base);
  }

  /** The 2MiB page mapped last when n pages from guestStart on are mapped. */
  function LastMapped(guestStart: nat, n: nat): nat
    requires n > 0
  {
    guestStart + PAGE_SIZE_2MB * (n - 1)
  }

  /** How many pages of a level the first n 2MiB pages from guestStart on touch. */
  function Touched(guestStart: nat, n: nat, l: nat): nat
    requires l >= 1
  {
    if n == 0 || Page(LastMapped(guestStart, n), l) < Page(guestStart, l) then 0
    else Page(LastMapped(guestStart, n), l) - Page(guestStart, l) + 1
  }

  /** How many tables init_npt allocates: the root, and one per 512GiB and per 1GiB that is touched. */
  function TableCount(guestStart: nat, n: nat): nat {
    1 + Touched(guestStart, n, 4) + Touched(guestStart, n, 3)
  }

  /** There is a table for exactly the pages touched. */
  ghost predicate TablesTouched(v: View, root: nat, guestStart: nat, n: nat) {
    && (forall p: nat :: Table(v, root, 3, p).Some? <==>
          n > 0 && Page(guestStart, 4) <= p <= Page(LastMapped(guestStart, n), 4))
    && (forall p: nat :: Table(v, root, 2, p).Some? <==>
          n > 0 && Page(guestStart, 3) <= p <= Page(LastMapped(guestStart, n), 3))
  }

  /** The next 2MiB page lies in the same page of a level, or in the one after it. */
  lemma NextTouched(x: nat)
    ensures Page(x, 3) <= Page(x + PAGE_SIZE_2MB, 3) <= Page(x, 3) + 1
    ensures Page(x, 4) <= Page(x + PAGE_SIZE_2MB, 4) <= Page(x, 4) + 1
  {
    PageNumbers(x);
    PageNumbers(x + PAGE_SIZE_2MB);
  }

  lemma {:induction false} LastNotBefore(guestStart: nat, n: nat)
    requires n > 0
    ensures Page(guestStart, 3) <= Page(LastMapped(guestStart, n), 3)
    ensures Page(guestStart, 4) <= Page(LastMapped(guestStart, n), 4)
  {
    hide Page;
    if n > 1 {
      LastNotBefore(guestStart, n - 1);
      NextTouched(LastMapped(guestStart, n - 1));
    }
  }

  /** Mapping one more page needs exactly the tables the count grows by. */
  lemma CountGrows(v: View, v': View, root: nat, guestStart: nat, n: nat)
    requires TablesTouched(v, root, guestStart, n)
    ensures TableCount(guestStart, n + 1)
            == TableCount(guestStart, n) + Needed(v, root, guestStart + PAGE_SIZE_2MB * n)
    ensures PathAdded(v, v', root, guestStart + PAGE_SIZE_2MB * n) ==> TablesTouched(v', root, guestStart, n + 1)
  {
    hide Page, Table;
    LastNotBefore(guestStart, n + 1);
    if n > 0 {
      LastNotBefore(guestStart, n);
      NextTouched(LastMapped(guestStart, n));
    }
    assert LastMapped(guestStart, n + 1) == guestStart + PAGE_SIZE_2MB * n;
  }

  lemma {:induction false} CountMonotone(guestStart: nat, j: nat, n: nat)
    requires j <= n
    ensures TableCount(guestStart, j) <= TableCount(guestStart, n)
  {
    hide Page;
    if j < n {
      CountMonotone(guestStart, j, n - 1);
      LastNotBefore(guestStart, n);
      if n > 1 {
        LastNotBefore(guestStart, n - 1);
        NextTouched(LastMapped(guestStart, n - 1));
      }
    }
  }

  /**
   * init_npt: the finished tables translate exactly the mapped range, each
   * address by its offset. The only panic that can occur is running out of
   * pages, exactly when the tables counted do not come together. However it
   * ends, only frames that were free are written.
   */
  method InitNpt(
      guestStart: nat, hostStart: nat, size: nat, pa: Allocator, mem: PhysicalMemory, reconstructed: bool)
    returns (r: Outcome, nCr3: nat, ghost tables: set<nat>)
    requires pa.Valid()
    requires guestStart % PAGE_SIZE_2MB == 0 && hostStart % PAGE_SIZE_2MB == 0
    requires guestStart + size <= ADDRESS_LIMIT && hostStart + size <= FRAME_LIMIT * PAGE_SIZE
    modifies pa`used, pa`live, pa.bitmap, mem
    ensures pa.Valid() && r != AlreadyMapped
    ensures Fresh(old(pa.used), old(mem.words), pa.used, mem.words, tables, pa.frameEnd)
    ensures AfterPages(old(pa.used), pa.frameEnd, TableCount(guestStart, size / PAGE_SIZE_2MB))
            == if r == Done then Some(pa.used) else None
    ensures r == Done ==>
              && nCr3 % PAGE_SIZE == 0 && nCr3 / PAGE_SIZE in tables
              && Exact(Decoded(mem.words), nCr3 / PAGE_SIZE, guestStart, hostStart, size / PAGE_SIZE_2MB)
    ensures r == Done ==> TablesIn(Decoded(mem.words), nCr3 / PAGE_SIZE, tables)
  {
    hide Tree, TablesIn, OpenEntries, LeavesAtLevelTwo, Table, Walk, WalkFrom, Allocator.Valid, Page, AfterPages,
         Search, TablesTouched, PathAdded, TableCount, Needed, Nested, Exact;
    ghost var m0, u0, n := mem.words, pa.used, size / PAGE_SIZE_2MB;
    NothingTouched(guestStart);
    CountMonotone(guestStart, 0, n);
    var ok, root := AllocateTable(pa, mem, reconstructed);
    if !ok {
      MorePagesFail(u0, pa.frameEnd, 1, TableCount(guestStart, n));
      return OutOfMemory, 0, {};
    }
    tables := {root};
    EmptyIsNested(mem.words, root, guestStart, hostStart);
    for i := 0 to size / PAGE_SIZE_2MB
      invariant pa.Valid() && Nested(mem.words, root, tables)
      invariant Exact(Decoded(mem.words), root, guestStart, hostStart, i)
      invariant root in tables && Fresh(old(pa.used), m0, pa.used, mem.words, tables, pa.frameEnd)
      invariant TablesTouched(Decoded(mem.words), root, guestStart, i)
      invariant AfterPages(u0, pa.frameEnd, TableCount(guestStart, i)) == Some(pa.used)
    {
      ghost var before, u, t := mem.words, pa.used, tables;
      ghost var gpa := guestStart + PAGE_SIZE_2MB * i;
      NotMappedYet(Decoded(before), root, guestStart, hostStart, i);
      PagesCompose(u0, pa.frameEnd, TableCount(guestStart, i), Needed(Decoded(before), root, gpa));
      CountMonotone(guestStart, i + 1, n);
      var outcome;
      outcome, tables := Map2M(guestStart + PAGE_SIZE_2MB * i, hostStart + PAGE_SIZE_2MB * i,
                               root, pa, mem, reconstructed, tables);
      CountGrows(Decoded(before), Decoded(mem.words), root, guestStart, i);
      FreshGrows(u0, m0, u, before, pa.used, mem.words, t, tables, pa.frameEnd);
      if outcome != Done {
        MorePagesFail(u0, pa.frameEnd, TableCount(guestStart, i + 1), TableCount(guestStart, n));
        return outcome, 0, tables;
      }
      NestedGrants(mem.words, root, tables);
      ExactExtends(Decoded(before), Decoded(mem.words), root, guestStart, hostStart, i);
    }
    r, nCr3 := Done, root * PAGE_SIZE;
    NestedTables(mem.words, root, tables);
  }

  lemma NothingTouched(guestStart: nat)
    ensures TableCount(guestStart, 0) == 1
  {
  }

  lemma NotMappedYet(v: View, root: nat, guestStart: nat, hostStart: nat, i: nat)
    requires Exact(v, root, guestStart, hostStart, i) && guestStart + PAGE_SIZE_2MB * i < ADDRESS_LIMIT
    ensures Walk(v, root, guestStart + PAGE_SIZE_2MB * i) == Fault
  {
    hide Walk, RightsFrom;
  }

  lemma FreshGrows(
      u0: set<nat>, m0: Words, u: set<nat>, m: Words, u': set<nat>, n: Words, tables: set<nat>, tables': set<nat>,
      end: nat)
    requires Fresh(u0, m0, u, m, tables, end) && Grown(u, tables, u', tables', end) && OnlyFrames(m, n, tables')
    ensures Fresh(u0, m0, u', n, tables', end)
  {
  }

  lemma NestedTables(m: Words, root: nat, tables: set<nat>)
    requires Nested(m, root, tables)
    ensures TablesIn(Decoded(m), root, tables)
  {
  }
}
