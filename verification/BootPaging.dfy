/**
 * The boot loader's edits of the live page tables (surtrc/arch/x86/page.c).
 * Pages for new tables come from the firmware, and the tables are reached by
 * their physical addresses.
 */
module BootPaging {
  import opened Bits
  import opened Memory
  import opened PageTables
  import opened Wrappers

  // ---------------------------------------------------------------- firmware pages

  /** AllocatePages as seen from here: it hands out the pages of some pool, then fails. */
  class Firmware {
    var pool: seq<nat>

    constructor (pages: seq<nat>)
      ensures pool == pages
    {
      pool := pages;
    }

    method AllocatePage() returns (ok: bool, frame: nat)
      modifies this
      ensures ok <==> |old(pool)| > 0
      ensures ok ==> frame == old(pool)[0] && pool == old(pool)[1..]
      ensures !ok ==> pool == old(pool)
    {
      ok, frame := |pool| > 0, 0;
      if ok {
        frame, pool := pool[0], pool[1..];
      }
    }
  }

  /** Distinct frames within the 40-bit frame field, none of them one of the given tables. */
  ghost predicate PoolOk(pool: seq<nat>, tables: set<nat>) {
    && (forall i | 0 <= i < |pool| :: pool[i] < FRAME_LIMIT && pool[i] !in tables)
    && (forall i, j | 0 <= i < j < |pool| :: pool[i] != pool[j])
  }

  // ---------------------------------------------------------------- entries

  /** value |= BIT(n) and value &= ~BIT(n). */
  function SetBit(e: Word, n: nat): Word {
    Or(e, ToBit(n))
  }

  function ClearBit(e: Word, n: nat): Word {
    And(e, Not(ToBit(n)))
  }

  /** Both entry initialisers: flags, then the address or-ed into an entry whose frame field is zero. */
  method InitEntry(e: Word, phys: nat, large: bool) returns (r: Word)
    requires e == Zero() && phys < FRAME_LIMIT * PAGE_SIZE
    ensures Decode(r) == Entry(large, true, false, false, phys / PAGE_SIZE) && Plain(r) && r[ENTRY_PRESENT]
  {
    r := SetBit(e, ENTRY_PRESENT);
    r := SetBit(r, ENTRY_RW);
    r := ClearBit(r, ENTRY_US);
    r := if large then SetBit(r, ENTRY_PS) else ClearBit(r, ENTRY_PS);
    ghost var flags := r;
    assert forall i | ENTRY_PHYS <= i < 64 :: !flags[i];
    r := Or(r, And(ToWord(phys), PhysMask()));
    OredFrame(flags, phys);
  }

  lemma OredFrame(flags: Word, phys: nat)
    requires phys < FRAME_LIMIT * PAGE_SIZE && forall i | ENTRY_PHYS <= i < 64 :: !flags[i]
    ensures var r := Or(flags, And(ToWord(phys), PhysMask()));
            && r[..ENTRY_PHYS] == flags[..ENTRY_PHYS] && !r[63]
            && Value(r[ENTRY_PHYS..52]) == phys / PAGE_SIZE && Plain(r)
  {
    var r, w, f := Or(flags, And(ToWord(phys), PhysMask())), ToWord(phys), phys / PAGE_SIZE;
    DropPageBits(phys, 64);
    assert r[ENTRY_PHYS..63] == w[ENTRY_PHYS..63] == w[12..][..51] == BitsOf(f, 52)[..51];
    assert r[ENTRY_PHYS..52] == w[ENTRY_PHYS..52] == w[12..][..40] == BitsOf(f, 52)[..40];
    BitsPrefix(f, 52, 51);
    BitsPrefix(f, 52, 40);
    BitsPrefix(f, 64, 51);
    BitsPrefix(f, 64, 40);
    FieldRoundTrip(f);
    WideFieldRoundTrip(f);
  }

  // ---------------------------------------------------------------- the live tables

  /**
   * An entry the code can extend or follow: all zeros, or a reference the processor
   * reads alike. If it is `open` as well, it forbids neither writing nor execution.
   */
  ghost predicate CleanEntry(e: Word, l: nat, open: bool) {
    if !e[ENTRY_PRESENT] then e == Zero()
    else l == 1 || (!e[ENTRY_PS] && Plain(e) && (open ==> e[ENTRY_RW] && !e[ENTRY_XD]))
  }

  /** The level-l table on the way to an address, and the entry looked up there. */
  ghost function OnPath(m: Words, root: nat, l: nat, a: nat): Option<nat>
    requires 1 <= l <= 4
  {
    Table(Decoded(m), root, l, Page(a, l + 1))
  }

  /** Every entry on the way to an address is clean: no large page, no leftover bits, and open if need be. */
  ghost predicate PathClean(m: Words, root: nat, a: nat, open: bool) {
    forall l {:trigger OnPath(m, root, l, a)} ::
      1 <= l <= 4 && OnPath(m, root, l, a).Some?
      ==> CleanEntry(InFrame(m, OnPath(m, root, l, a).value, Page(a, l) % 512), l, open)
  }

  /** Tree-shaped tables, clean on the way to every address from lo up to hi. */
  ghost predicate Live(m: Words, root: nat, tables: set<nat>, lo: nat, hi: nat, open: bool) {
    && Tree(Decoded(m), root) && TablesIn(Decoded(m), root, tables)
    && (forall a: nat | lo <= a < hi :: PathClean(m, root, a, open))
  }

  /** Filling a frame that is no table of the tree. */
  lemma LiveElsewhere(m: Words, n: Words, root: nat, tables: set<nat>, lo: nat, hi: nat, open: bool, g: nat)
    requires Live(m, root, tables, lo, hi, open) && OnlyFrames(m, n, {g}) && g !in tables
    ensures Live(n, root, tables, lo, hi, open) && SameWalks(Decoded(m), Decoded(n), root)
    ensures forall l, p {:trigger Table(Decoded(n), root, l, p)} | 1 <= l <= 4 && 0 <= p ::
              Table(Decoded(n), root, l, p) == Table(Decoded(m), root, l, p)
  {
    FramesKept(m, n, {g});
    forall f | f in tables
      ensures SameSlots(Decoded(m), Decoded(n), f) && SameFrame(m, n, f)
    {
      SameFrameSameSlots(m, n, f);
    }
    TreeUnchanged(Decoded(m), Decoded(n), root, tables);
    forall a: nat | lo <= a < hi
      ensures PathClean(n, root, a, open)
    {
      PathElsewhere(m, n, root, tables, a, open);
    }
  }

  lemma PathElsewhere(m: Words, n: Words, root: nat, tables: set<nat>, a: nat, open: bool)
    requires PathClean(m, root, a, open) && TablesIn(Decoded(m), root, tables)
    requires forall f | f in tables :: SameFrame(m, n, f)
    requires forall l, p {:trigger Table(Decoded(n), root, l, p)} | 1 <= l <= 4 && 0 <= p ::
               Table(Decoded(n), root, l, p) == Table(Decoded(m), root, l, p)
    ensures PathClean(n, root, a, open)
  {
    forall l | 1 <= l <= 4 && OnPath(n, root, l, a).Some?
      ensures CleanEntry(InFrame(n, OnPath(n, root, l, a).value, Page(a, l) % 512), l, open)
    {
      var t := OnPath(n, root, l, a).value;
      assert OnPath(m, root, l, a) == Some(t);
      assert SameFrame(m, n, t);
      assert InFrame(n, t, Page(a, l) % 512) == InFrame(m, t, Page(a, l) % 512);
    }
  }

  // ---------------------------------------------------------------- a writable level-4 table

  /** Below the root, a copied level-4 table leads to the same tables. */
  lemma {:induction false} TablesOfCopy(m: Words, n: Words, root: nat, copy: nat, tables: set<nat>, l: nat, p: nat)
    requires 1 <= l <= 4 && TablesIn(Decoded(m), root, tables) && Copied(m, root, n, copy)
    requires forall f | f in tables :: SameFrame(m, n, f)
    ensures Table(Decoded(n), copy, l, p) ==
              if l == 4 then (if p == 0 then Some(copy) else None) else Table(Decoded(m), root, l, p)
    decreases 4 - l
  {
    if l < 4 {
      TablesOfCopy(m, n, root, copy, tables, l + 1, p / 512);
      var from := Table(Decoded(m), root, l + 1, p / 512);
      if from.Some? {
        var t, t' := from.value, if l == 3 then copy else from.value;
        SlotDecodes(m, t, p % 512);
        SlotDecodes(n, t', p % 512);
        assert t in tables;
        assert InFrame(n, t', p % 512) == InFrame(m, t, p % 512);
      }
    }
  }

  lemma CopiedRoot(m: Words, n: Words, root: nat, copy: nat, tables: set<nat>, a: nat)
    requires a < ADDRESS_LIMIT && TablesIn(Decoded(m), root, tables) && Copied(m, root, n, copy)
    requires forall f | f in tables :: SameFrame(m, n, f)
    ensures Walk(Decoded(n), copy, a) == Walk(Decoded(m), root, a)
  {
    var v, v', i := Decoded(m), Decoded(n), Page(a, 4) % 512;
    SlotDecodes(m, root, i);
    SlotDecodes(n, copy, i);
    assert Slot(v', copy, i) == Slot(v, root, i);
    PageNumbers(a);
    match Slot(v, root, i) {
      case Absent =>
      case Entry(large, _, _, _, frame) =>
        if !large {
          assert Table(v, root, 4, Page(a, 5)) == Some(root);
          assert Table(v, root, 3, Page(a, 4)) == Some(frame);
          forall f | f in tables
            ensures SameSlots(v, v', f)
          {
            SameFrameSameSlots(m, n, f);
          }
          WalkUnchanged(v, v', root, tables, 3, frame, a);
        }
    }
  }

  lemma CopiedPath(m: Words, n: Words, root: nat, copy: nat, tables: set<nat>, a: nat, open: bool)
    requires PathClean(m, root, a, open) && TablesIn(Decoded(m), root, tables) && Copied(m, root, n, copy)
    requires forall f | f in tables :: SameFrame(m, n, f)
    ensures PathClean(n, copy, a, open)
  {
    forall l | 1 <= l <= 4 && OnPath(n, copy, l, a).Some?
      ensures CleanEntry(InFrame(n, OnPath(n, copy, l, a).value, Page(a, l) % 512), l, open)
    {
      TablesOfCopy(m, n, root, copy, tables, l, Page(a, l + 1));
      assert OnPath(m, root, l, a).Some?;
      var t, t' := OnPath(m, root, l, a).value, OnPath(n, copy, l, a).value;
      assert t in tables;
      assert InFrame(n, t', Page(a, l) % 512) == InFrame(m, t, Page(a, l) % 512);
    }
  }

  lemma CopiedLive(m: Words, n: Words, root: nat, copy: nat, tables: set<nat>, lo: nat, hi: nat, open: bool)
    requires Live(m, root, tables, lo, hi, open)
    requires Copied(m, root, n, copy) && copy !in tables && OnlyFrames(m, n, {copy})
    ensures Live(n, copy, tables + {copy}, lo, hi, open)
    ensures forall a: nat | a < ADDRESS_LIMIT :: Walk(Decoded(n), copy, a) == Walk(Decoded(m), root, a)
  {
    hide Walk, WalkFrom, Table, PathClean;
    FramesKept(m, n, {copy});
    forall l, p | 1 <= l <= 4 && 0 <= p
      ensures Table(Decoded(n), copy, l, p) ==
                if l == 4 then (if p == 0 then Some(copy) else None) else Table(Decoded(m), root, l, p)
    {
      TablesOfCopy(m, n, root, copy, tables, l, p);
    }
    forall a: nat | a < ADDRESS_LIMIT
      ensures Walk(Decoded(n), copy, a) == Walk(Decoded(m), root, a)
    {
      CopiedRoot(m, n, root, copy, tables, a);
    }
    forall a: nat | lo <= a < hi
      ensures PathClean(n, copy, a, open)
    {
      CopiedPath(m, n, root, copy, tables, a, open);
    }
  }

  /** set_lv4table_writable: every address translates as before, in tables that can be edited as before. */
  method SetLv4TableWritable(
      mem: PhysicalMemory, fw: Firmware, cr3: nat,
      ghost tables: set<nat>, ghost lo: nat, ghost hi: nat, ghost open: bool)
    returns (ok: bool, cr3': nat, ghost tables': set<nat>)
    requires cr3 % PAGE_SIZE == 0 && PoolOk(fw.pool, tables) && Live(mem.words, cr3 / PAGE_SIZE, tables, lo, hi, open)
    modifies mem, fw
    ensures ok <==> old(fw.pool) != []
    ensures ok ==> cr3' % PAGE_SIZE == 0 && cr3' / PAGE_SIZE !in tables && PoolOk(fw.pool, tables')
    ensures ok ==> Live(mem.words, cr3' / PAGE_SIZE, tables', lo, hi, open)
    ensures ok ==> OnlyFrames(old(mem.words), mem.words, {cr3' / PAGE_SIZE})
    ensures ok ==> forall a: nat | a < ADDRESS_LIMIT ::
              Walk(Decoded(mem.words), cr3' / PAGE_SIZE, a) == Walk(Decoded(old(mem.words)), cr3 / PAGE_SIZE, a)
  {
    hide Walk, WalkFrom, Live, Table;
    cr3', tables' := 0, tables;
    var frame;
    ok, frame := fw.AllocatePage();
    if !ok {
      return;
    }
    assert frame != cr3 / PAGE_SIZE by { RootIsTable(mem.words, cr3 / PAGE_SIZE, tables, lo, hi, open); }
    CopyTable(mem, cr3 / PAGE_SIZE, frame);
    CopiedLive(old(mem.words), mem.words, cr3 / PAGE_SIZE, frame, tables, lo, hi, open);
    cr3', tables' := frame * PAGE_SIZE, tables + {frame};
  }

  lemma RootIsTable(m: Words, root: nat, tables: set<nat>, lo: nat, hi: nat, open: bool)
    requires Live(m, root, tables, lo, hi, open)
    ensures root in tables
  {
    assert Table(Decoded(m), root, 4, 0) == Some(root);
  }

  // ---------------------------------------------------------------- adding tables

  /** Storing a clean entry, where new tables if any are zeroed, keeps paths clean. */
  lemma PathStored(m: Words, n: Words, root: nat, l: nat, q: nat, t: nat, e: Word, g: nat, a: nat, open: bool)
    requires PathClean(m, root, a, open) && 1 <= l <= 4 && Tree(Decoded(m), root)
    requires Table(Decoded(m), root, l, q / 512) == Some(t) && n == m[512 * t + q % 512 := e] && CleanEntry(e, l, open)
    requires forall j | 0 <= j < 512 :: InFrame(m, g, j) == Zero()
    requires forall j, p {:trigger Table(Decoded(n), root, j, p)} | 1 <= j <= 4 && 0 <= p ::
               || Table(Decoded(n), root, j, p) == Some(g)
               || Table(Decoded(n), root, j, p) == Table(Decoded(m), root, j, p)
    requires g != t
    ensures PathClean(n, root, a, open)
  {
    hide Table, CleanEntry, Page;
    forall j | 1 <= j <= 4 && OnPath(n, root, j, a).Some?
      ensures CleanEntry(InFrame(n, OnPath(n, root, j, a).value, Page(a, j) % 512), j, open)
    {
      var u, i := OnPath(n, root, j, a).value, Page(a, j) % 512;
      if u == g {
        assert InFrame(n, u, i) == InFrame(m, u, i) == Zero();
        CleanZero(j, open);
      } else {
        assert OnPath(m, root, j, a) == Some(u);
        if u == t && i == q % 512 {
          assert j == l;
        } else {
          assert InFrame(n, u, i) == InFrame(m, u, i);
        }
      }
    }
  }

  // ---------------------------------------------------------------- tables on the way

  /** Hanging a zeroed table into an entry of zeros. */
  lemma LiveTableHung(
      m: Words, n: Words, root: nat, tables: set<nat>, lo: nat, hi: nat, open: bool,
      l: nat, q: nat, t: nat, g: nat, e: Word)
    requires Live(m, root, tables, lo, hi, open) && 2 <= l <= 4 && Table(Decoded(m), root, l, q / 512) == Some(t)
    requires n == m[512 * t + q % 512 := e] && !InFrame(m, t, q % 512)[ENTRY_PRESENT]
    requires Decode(e) == Entry(false, true, false, false, g) && Plain(e) && e[ENTRY_PRESENT]
    requires g !in tables && forall i | 0 <= i < 512 :: InFrame(m, g, i) == Zero()
    ensures Live(n, root, tables + {g}, lo, hi, open) && Table(Decoded(n), root, l - 1, q) == Some(g)
    ensures SameWalks(Decoded(m), Decoded(n), root)
  {
    hide Tree, TablesIn, Walk, WalkFrom, PathClean, CleanEntry, Decode, Fills, Table, Plain;
    TableIsIn(m, root, tables, l, q, t);
    StoreIsOneSlot(m, t, q % 512, e);
    SlotDecodes(m, t, q % 512);
    PresenceDecoded(InFrame(m, t, q % 512));
    forall i | 0 <= i < 512
      ensures Slot(Decoded(n), g, i).Absent?
    {
      SlotDecodes(m, g, i);
      assert InFrame(m, g, i) == Zero();
      PresenceDecoded(InFrame(m, g, i));
    }
    SlotFilled(Decoded(m), Decoded(n), root, l, q, t, Decode(e));
    EmptyTableIsAdded(Decoded(m), Decoded(n), root, l, q, t, Decode(e), tables);
    EmptyTableIsInvisible(Decoded(m), Decoded(n), root, l, q, t, Decode(e));
    assert CleanEntry(e, l, open) by { CleanReference(e, l, open); }
    forall a: nat | lo <= a < hi
      ensures PathClean(n, root, a, open)
    {
      PathStored(m, n, root, l, q, t, e, g, a, open);
    }
  }

  lemma CleanZero(l: nat, open: bool)
    ensures CleanEntry(Zero(), l, open)
  {
  }

  lemma CleanReference(e: Word, l: nat, open: bool)
    requires Decode(e).Entry? && !Decode(e).large && Decode(e).writable && !Decode(e).noExecute && Plain(e)
    ensures CleanEntry(e, l, open)
  {
  }

  lemma LiveTableCreated(
      m: Words, c: Words, n: Words, root: nat, tables: set<nat>, lo: nat, hi: nat, open: bool,
      l: nat, q: nat, t: nat, g: nat, e: Word)
    requires Live(m, root, tables, lo, hi, open) && 2 <= l <= 4 && Table(Decoded(m), root, l, q / 512) == Some(t)
    requires OnlyFrames(m, c, {g}) && g !in tables && forall i | 0 <= i < 512 :: InFrame(c, g, i) == Zero()
    requires !InFrame(m, t, q % 512)[ENTRY_PRESENT] && n == c[512 * t + q % 512 := e]
    requires Decode(e) == Entry(false, true, false, false, g) && Plain(e) && e[ENTRY_PRESENT]
    ensures Live(n, root, tables + {g}, lo, hi, open) && Table(Decoded(n), root, l - 1, q) == Some(g)
    ensures SameWalks(Decoded(m), Decoded(n), root) && CodeFrame(InFrame(n, t, q % 512)) == g
    ensures OnlyFrames(m, n, tables + {g})
  {
    hide Tree, Walk, WalkFrom, PathClean, Table;
    TableIsIn(m, root, tables, l, q, t);
    LiveElsewhere(m, c, root, tables, lo, hi, open, g);
    FramesKept(m, c, {g});
    assert InFrame(c, t, q % 512) == InFrame(m, t, q % 512);
    LiveTableHung(c, n, root, tables, lo, hi, open, l, q, t, g, e);
    SameWalksCompose(Decoded(m), Decoded(c), Decoded(n), root);
    assert (512 * t + q % 512) / 512 == t;
  }

  lemma FollowsReference(m: Words, root: nat, tables: set<nat>, lo: nat, hi: nat, open: bool, l: nat, t: nat, a: nat)
    requires Live(m, root, tables, lo, hi, open) && lo <= a < hi && 1 <= l <= 4
    requires Table(Decoded(m), root, l, Page(a, l + 1)) == Some(t)
    ensures t in tables && CleanEntry(InFrame(m, t, Page(a, l) % 512), l, open)
    ensures l >= 2 && InFrame(m, t, Page(a, l) % 512)[ENTRY_PRESENT] ==>
              Table(Decoded(m), root, l - 1, Page(a, l)) == Some(CodeFrame(InFrame(m, t, Page(a, l) % 512)))
    ensures SameWalks(Decoded(m), Decoded(m), root)
  {
    assert PathClean(m, root, a, open);
    assert OnPath(m, root, l, a) == Some(t);
    SlotDecodes(m, t, Page(a, l) % 512);
  }

  /** One of the three "if not present" steps of map_4k_to. */
  method EnsureTable(
      fw: Firmware, mem: PhysicalMemory, root: nat,
      ghost tables: set<nat>, ghost lo: nat, ghost hi: nat, ghost open: bool, l: nat, t: nat, a: nat)
    returns (ok: bool, next: nat, ghost tables': set<nat>)
    requires PoolOk(fw.pool, tables) && Live(mem.words, root, tables, lo, hi, open)
    requires 2 <= l <= 4 && lo <= a < hi && Table(Decoded(mem.words), root, l, Page(a, l + 1)) == Some(t)
    modifies fw, mem
    ensures |fw.pool| >= |old(fw.pool)| - 1 && (!ok ==> old(fw.pool) == [])
    ensures ok ==> tables <= tables' && PoolOk(fw.pool, tables') && Live(mem.words, root, tables', lo, hi, open)
    ensures ok ==> OnlyFrames(old(mem.words), mem.words, tables')
    ensures ok ==> Table(Decoded(mem.words), root, l - 1, Page(a, l)) == Some(next)
    ensures ok ==> SameWalks(Decoded(old(mem.words)), Decoded(mem.words), root)
  {
    hide Live, Table, Walk, WalkFrom, SameWalks, Decode;
    ghost var before := mem.words;
    assert Page(a, l + 1) == Page(a, l) / 512;
    FollowsReference(before, root, tables, lo, hi, open, l, t, a);
    var entry := InFrame(mem.words, t, Page(a, l) % 512);
    ok, next, tables' := true, 0, tables;
    if !entry[ENTRY_PRESENT] {
      var g;
      ok, g := fw.AllocatePage();
      if !ok {
        return;
      }
      ClearTable(mem, g);
      ghost var cleared := mem.words;
      var e := InitEntry(entry, g * PAGE_SIZE, false);
      mem.Store(512 * t + Page(a, l) % 512, e);
      tables' := tables + {g};
      LiveTableCreated(before, cleared, mem.words, root, tables, lo, hi, open, l, Page(a, l), t, g, e);
    }
    next := CodeFrame(InFrame(mem.words, t, Page(a, l) % 512));
  }

  /** At the end of a clean path, the leaf alone decides what is allowed. */
  lemma {:induction false} CleanPathRights(m: Words, root: nat, l: nat, t: nat, a: nat)
    requires 1 <= l <= 4 && PathClean(m, root, a, true) && OnPath(m, root, l, a) == Some(t)
    requires WalkFrom(Decoded(m), t, l, a).Mapped? && WalkFrom(Decoded(m), t, l, a).leaf.Entry?
    ensures var leaf, r := WalkFrom(Decoded(m), t, l, a).leaf, RightsFrom(Decoded(m), t, l, a);
            r.write == leaf.writable && r.execute == !leaf.noExecute && (r.user ==> leaf.user)
    decreases l
  {
    SlotDecodes(m, t, Page(a, l) % 512);
    if l > 1 {
      assert Page(a, l + 1) == Page(a, l) / 512;
      CleanPathRights(m, root, l - 1, Decode(InFrame(m, t, Page(a, l) % 512)).frame, a);
    }
  }

  // ---------------------------------------------------------------- map_4k_to

  /** Storing a present level-1 entry into the slot for an address of the clean range. */
  lemma LiveLeafStored(
      m: Words, n: Words, root: nat, tables: set<nat>, lo: nat, hi: nat, open: bool, t: nat, e: Word, a: nat)
    requires Live(m, root, tables, lo, hi, open) && Table(Decoded(m), root, 1, Page(a, 2)) == Some(t)
    requires e[ENTRY_PRESENT] && n == m[512 * t + Page(a, 1) % 512 := e]
    ensures Live(n, root, tables, lo, hi, open) && OnlyFrames(m, n, tables)
    ensures forall b: nat | b < ADDRESS_LIMIT ::
              Walk(Decoded(n), root, b) == if Page(b, 1) == Page(a, 1) then
                                             Mapped(LeafAddress(Decode(e).frame, 1, b), Decode(e))
                                           else Walk(Decoded(m), root, b)
  {
    hide Tree, TablesIn, Walk, WalkFrom, PathClean, CleanEntry, Decode, Fills, OneSlot, Slot, Table, Page;
    var q, v, v' := Page(a, 1), Decoded(m), Decoded(n);
    PresenceDecoded(e);
    PageAboveLeaf(a);
    TableIsIn(m, root, tables, 1, q, t);
    StoreIsOneSlot(m, t, q % 512, e);
    SlotFilled(v, v', root, 1, q, t, Decode(e));
    LeafIsPointUpdate(v, v', root, 1, q, t, Decode(e));
    LevelOneKeepsTables(v, v', root, q, t, Decode(e), tables);
    assert (512 * t + q % 512) / 512 == t;
    forall b: nat | lo <= b < hi
      ensures PathClean(n, root, b, open)
    {
      LeafPathClean(m, n, root, q, t, e, b, open);
    }
  }

  lemma PageAboveLeaf(a: nat)
    ensures Page(a, 2) == Page(a, 1) / 512
  {
  }

  lemma SlotFilled(v: View, v': View, root: nat, l: nat, q: nat, t: nat, e: Pte)
    requires 1 <= l <= 4 && Table(v, root, l, q / 512) == Some(t)
    requires OneSlot(v, v', t, q % 512) && Slot(v', t, q % 512) == e
    ensures Fills(v, v', root, l, q, t, e)
  {
  }

  lemma LevelOneKeepsTables(v: View, v': View, root: nat, q: nat, t: nat, e: Pte, tables: set<nat>)
    requires Tree(v, root) && TablesIn(v, root, tables) && Fills(v, v', root, 1, q, t, e) && e.Entry?
    ensures Tree(v', root) && TablesIn(v', root, tables)
    ensures forall j, p {:trigger Table(v', root, j, p)} | 1 <= j <= 4 && 0 <= p ::
              Table(v', root, j, p) == Table(v, root, j, p)
  {
    LeafKeepsTables(v, v', root, 1, q, t, e, tables);
  }

  lemma LeafPathClean(m: Words, n: Words, root: nat, q: nat, t: nat, e: Word, a: nat, open: bool)
    requires PathClean(m, root, a, open) && Tree(Decoded(m), root) && e[ENTRY_PRESENT]
    requires Table(Decoded(m), root, 1, q / 512) == Some(t) && n == m[512 * t + q % 512 := e]
    requires forall j, p {:trigger Table(Decoded(n), root, j, p)} | 1 <= j <= 4 && 0 <= p ::
               Table(Decoded(n), root, j, p) == Table(Decoded(m), root, j, p)
    ensures PathClean(n, root, a, open)
  {
    hide Table, Page, Plain;
    forall j | 1 <= j <= 4 && OnPath(n, root, j, a).Some?
      ensures CleanEntry(InFrame(n, OnPath(n, root, j, a).value, Page(a, j) % 512), j, open)
    {
      var u, i := OnPath(n, root, j, a).value, Page(a, j) % 512;
      assert OnPath(m, root, j, a) == Some(u);
      if u == t && i == q % 512 {
        assert j == 1;
      } else {
        assert InFrame(n, u, i) == InFrame(m, u, i);
      }
    }
  }

  /** The first three levels of map_4k_to: the level-1 table for an address. */
  method LevelOneTable(
      fw: Firmware, mem: PhysicalMemory, root: nat,
      ghost tables: set<nat>, ghost lo: nat, ghost hi: nat, ghost open: bool, a: nat)
    returns (ok: bool, lv1table: nat, ghost tables': set<nat>)
    requires PoolOk(fw.pool, tables) && Live(mem.words, root, tables, lo, hi, open) && lo <= a < hi <= ADDRESS_LIMIT
    modifies fw, mem
    ensures |fw.pool| >= |old(fw.pool)| - 3 && (!ok ==> |old(fw.pool)| < 3)
    ensures ok ==> tables <= tables' && PoolOk(fw.pool, tables') && Live(mem.words, root, tables', lo, hi, open)
    ensures ok ==> OnlyFrames(old(mem.words), mem.words, tables')
    ensures ok ==> Table(Decoded(mem.words), root, 1, Page(a, 2)) == Some(lv1table)
    ensures ok ==> SameWalks(Decoded(old(mem.words)), Decoded(mem.words), root)
  {
    hide Live, Walk, WalkFrom, SameWalks, Decode, PoolOk;
    ghost var m0 := mem.words;
    lv1table := 0;
    PageNumbers(a);
    var lv3table, lv2table;
    ok, lv3table, tables' := EnsureTable(fw, mem, root, tables, lo, hi, open, 4, root, a);
    if !ok {
      return;
    }
    ghost var m1 := mem.words;
    ok, lv2table, tables' := EnsureTable(fw, mem, root, tables', lo, hi, open, 3, lv3table, a);
    if !ok {
      return;
    }
    ghost var m2 := mem.words;
    SameWalksCompose(Decoded(m0), Decoded(m1), Decoded(m2), root);
    ok, lv1table, tables' := EnsureTable(fw, mem, root, tables', lo, hi, open, 2, lv2table, a);
    if ok {
      SameWalksCompose(Decoded(m0), Decoded(m2), Decoded(mem.words), root);
    }
  }

  /** At the level-1 table the walk's fate is the level-1 entry's presence. */
  lemma LevelOneDecides(m: Words, root: nat, t: nat, a: nat)
    requires a < ADDRESS_LIMIT && Table(Decoded(m), root, 1, Page(a, 2)) == Some(t)
    ensures Walk(Decoded(m), root, a) ==
              match Decode(InFrame(m, t, Page(a, 1) % 512))
              case Absent => Fault
              case Entry(large, w, x, u, frame) => Mapped(LeafAddress(frame, 1, a), Entry(large, w, x, u, frame))
  {
    WalkPasses(Decoded(m), root, 1, t, a);
    SlotDecodes(m, t, Page(a, 1) % 512);
  }

  /**
   * map_4k_to: a point update of the live translation, or a stop: when the page
   * is already mapped, or when the firmware is out of pages.
   */
  method Map4kTo(
      virt: nat, phys: nat, fw: Firmware, mem: PhysicalMemory, cr3: nat, ghost tables: set<nat>, ghost lo: nat,
      ghost hi: nat, ghost open: bool)
    returns (r: Outcome, ghost tables': set<nat>)
    requires cr3 % PAGE_SIZE == 0 && phys < FRAME_LIMIT * PAGE_SIZE
    requires lo <= virt % ADDRESS_LIMIT < hi <= ADDRESS_LIMIT
    requires PoolOk(fw.pool, tables) && Live(mem.words, cr3 / PAGE_SIZE, tables, lo, hi, open)
    modifies fw, mem
    ensures |fw.pool| >= |old(fw.pool)| - 3 && (r == OutOfMemory ==> |old(fw.pool)| < 3)
    ensures r == AlreadyMapped ==> Walk(Decoded(old(mem.words)), cr3 / PAGE_SIZE, virt % ADDRESS_LIMIT).Mapped?
    ensures r == Done ==> Walk(Decoded(old(mem.words)), cr3 / PAGE_SIZE, virt % ADDRESS_LIMIT) == Fault
    ensures r == Done ==>
              && tables <= tables' && PoolOk(fw.pool, tables')
              && Live(mem.words, cr3 / PAGE_SIZE, tables', lo, hi, open)
              && OnlyFrames(old(mem.words), mem.words, tables')
    ensures r == Done ==> forall b: nat | b < ADDRESS_LIMIT ::
              Walk(Decoded(mem.words), cr3 / PAGE_SIZE, b) ==
                if Page(b, 1) == Page(virt % ADDRESS_LIMIT, 1) then
                  Mapped(phys / PAGE_SIZE * PAGE_SIZE + b % PAGE_SIZE,
                         Entry(true, true, false, false, phys / PAGE_SIZE))
                else Walk(Decoded(old(mem.words)), cr3 / PAGE_SIZE, b)
  {
    hide Live, Walk, WalkFrom, Table, Decode, PoolOk, Page;
    var root, a := cr3 / PAGE_SIZE, virt % ADDRESS_LIMIT;
    ghost var m0 := mem.words;
    var ok, lv1table;
    ok, lv1table, tables' := LevelOneTable(fw, mem, root, tables, lo, hi, open, a);
    if !ok {
      return OutOfMemory, tables';
    }
    ghost var m1 := mem.words;
    FollowsReference(m1, root, tables', lo, hi, open, 1, lv1table, a);
    LevelOneDecides(m1, root, lv1table, a);
    var lv1ent := InFrame(mem.words, lv1table, Page(a, 1) % 512);
    PresenceDecoded(lv1ent);
    if lv1ent[ENTRY_PRESENT] {
      return AlreadyMapped, tables';
    }
    var e := InitEntry(lv1ent, phys, true);
    mem.Store(512 * lv1table + Page(a, 1) % 512, e);
    LiveLeafStored(m1, mem.words, root, tables', lo, hi, open, lv1table, e, a);
    r := Done;
  }

  lemma PresenceDecoded(e: Word)
    ensures Decode(e).Entry? <==> e[ENTRY_PRESENT]
  {
  }

  // ---------------------------------------------------------------- change_map_4k

  datatype PageAttribute = ReadOnly | ReadWrite | Executable

  /** The three combinations change_map_4k writes into a leaf. */
  method SetAttribute(e: Word, attr: PageAttribute) returns (r: Word)
    requires e[ENTRY_PRESENT]
    ensures Decode(e).Entry? && Decode(r) == Decode(e).(writable := attr == ReadWrite, noExecute := attr != Executable)
    ensures r[ENTRY_PRESENT]
  {
    match attr {
      case ReadOnly =>
        r := ClearBit(e, ENTRY_RW);
        r := SetBit(r, ENTRY_XD);
      case ReadWrite =>
        r := SetBit(e, ENTRY_RW);
        r := SetBit(r, ENTRY_XD);
      case Executable =>
        r := ClearBit(e, ENTRY_RW);
        r := ClearBit(r, ENTRY_XD);
    }
    assert r[ENTRY_PHYS..52] == e[ENTRY_PHYS..52];
  }

  /** On a clean path, a mapped address has a table at every level, and the code's frames lead there. */
  lemma MappedPath(m: Words, root: nat, tables: set<nat>, lo: nat, hi: nat, open: bool, l: nat, t: nat, a: nat)
    requires Live(m, root, tables, lo, hi, open) && lo <= a < hi <= ADDRESS_LIMIT && 2 <= l <= 4
    requires Table(Decoded(m), root, l, Page(a, l + 1)) == Some(t) && Walk(Decoded(m), root, a).Mapped?
    ensures Table(Decoded(m), root, l - 1, Page(a, l)) == Some(CodeFrame(InFrame(m, t, Page(a, l) % 512)))
  {
    WalkPasses(Decoded(m), root, l, t, a);
    SlotDecodes(m, t, Page(a, l) % 512);
    FollowsReference(m, root, tables, lo, hi, open, l, t, a);
  }

  /** change_map_4k on a mapped page: no address translates elsewhere, and only that page's attributes change. */
  method ChangeMap4k(
      virt: nat, attr: PageAttribute, mem: PhysicalMemory, cr3: nat, ghost tables: set<nat>, ghost lo: nat,
      ghost hi: nat, ghost open: bool)
    requires cr3 % PAGE_SIZE == 0 && lo <= virt % ADDRESS_LIMIT < hi <= ADDRESS_LIMIT
    requires Live(mem.words, cr3 / PAGE_SIZE, tables, lo, hi, open)
    requires Walk(Decoded(mem.words), cr3 / PAGE_SIZE, virt % ADDRESS_LIMIT).Mapped?
    modifies mem
    ensures Live(mem.words, cr3 / PAGE_SIZE, tables, lo, hi, open) && OnlyFrames(old(mem.words), mem.words, tables)
    ensures forall b: nat | b < ADDRESS_LIMIT ::
              var before, after := Walk(Decoded(old(mem.words)), cr3 / PAGE_SIZE, b),
                  Walk(Decoded(mem.words), cr3 / PAGE_SIZE, b);
              if Page(b, 1) == Page(virt % ADDRESS_LIMIT, 1) then
                before.Mapped? && before.leaf.Entry? && after ==
                  before.(leaf := before.leaf.(writable := attr == ReadWrite, noExecute := attr != Executable))
              else after == before
  {
    hide Live, Walk, WalkFrom, Table, Decode;
    var root, a := cr3 / PAGE_SIZE, virt % ADDRESS_LIMIT;
    ghost var m := mem.words;
    PageNumbers(a);
    RootTable(m, root, a);
    MappedPath(m, root, tables, lo, hi, open, 4, root, a);
    var lv3table := CodeFrame(InFrame(mem.words, root, Page(a, 4) % 512));
    MappedPath(m, root, tables, lo, hi, open, 3, lv3table, a);
    var lv2table := CodeFrame(InFrame(mem.words, lv3table, Page(a, 3) % 512));
    MappedPath(m, root, tables, lo, hi, open, 2, lv2table, a);
    var lv1table := CodeFrame(InFrame(mem.words, lv2table, Page(a, 2) % 512));
    var lv1ent := InFrame(mem.words, lv1table, Page(a, 1) % 512);
    LevelOneDecides(m, root, lv1table, a);
    PresenceDecoded(lv1ent);
    var e := SetAttribute(lv1ent, attr);
    mem.Store(512 * lv1table + Page(a, 1) % 512, e);
    LiveLeafStored(m, mem.words, root, tables, lo, hi, open, lv1table, e, a);
    forall b: nat | b < ADDRESS_LIMIT && Page(b, 1) == Page(a, 1)
      ensures Walk(Decoded(m), root, b) == Mapped(LeafAddress(Decode(lv1ent).frame, 1, b), Decode(lv1ent))
    {
      assert Page(b, 2) == Page(a, 2);
      LevelOneDecides(m, root, lv1table, b);
    }
  }

  lemma RootTable(m: Words, root: nat, a: nat)
    requires a < ADDRESS_LIMIT
    ensures Table(Decoded(m), root, 4, Page(a, 5)) == Some(root)
  {
    PageNumbers(a);
  }
}
