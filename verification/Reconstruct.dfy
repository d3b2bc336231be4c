/**
 * The kernel's switch to its own page tables (ymirc/arch/x86/page.c): a direct
 * map of the first 512GiB with 1GiB pages, and the level-4 slots above it
 * carried over from the boot tables.
 */
module Reconstruct {
  import opened Bits
  import opened Memory
  import opened PageTables
  import opened PageAllocator
  import opened TablePages
  import opened Wrappers

  /** The level-4 slot of the direct map, and the first slot after it. */
  const DIRECT_SLOT: nat := 273
  const KERNEL_SLOTS: nat := 274
  /** The 48 translated bits of DIRECT_MAP_BASE. */
  const DIRECT_BASE48: nat := DIRECT_MAP_BASE % ADDRESS_LIMIT

  lemma DirectSlotIsRight()
    ensures DIRECT_BASE48 == DIRECT_SLOT * 0x80_0000_0000
    ensures DIRECT_MAP_BASE / 0x80_0000_0000 % 512 == DIRECT_SLOT
    ensures DIRECT_SLOT + DIRECT_MAP_SIZE / 0x80_0000_0000 == KERNEL_SLOTS
  {
  }

  // ---------------------------------------------------------------- what a walk reads

  /** The frames of the tables a walk looks into. */
  function Visits(v: View, table: nat, l: nat, a: nat): set<nat>
    requires 1 <= l <= 4
    decreases l
  {
    match Slot(v, table, Page(a, l) % 512)
    case Absent => {table}
    case Entry(large, _, _, _, frame) => if l == 1 || large then {table} else {table} + Visits(v, frame, l - 1, a)
  }

  /** A walk depends on the tables it visits and on nothing else. */
  lemma {:induction false} WalkReads(v: View, v': View, t: nat, l: nat, a: nat)
    requires 1 <= l <= 4 && forall f | f in Visits(v, t, l, a) :: SameSlots(v, v', f)
    ensures WalkFrom(v', t, l, a) == WalkFrom(v, t, l, a) && Visits(v', t, l, a) == Visits(v, t, l, a)
    ensures RightsFrom(v', t, l, a) == RightsFrom(v, t, l, a)
    decreases l
  {
    assert SameSlots(v, v', t);
    match Slot(v, t, Page(a, l) % 512) {
      case Absent =>
      case Entry(large, _, _, _, frame) =>
        if l > 1 && !large {
          WalkReads(v, v', frame, l - 1, a);
        }
    }
  }

  // ---------------------------------------------------------------- cloning

  /** clone_lv1_table, and the copying half of the other two: a new frame with a table's 512 entries. */
  method CloneTable(pa: Allocator, mem: PhysicalMemory, src: nat) returns (ok: bool, dst: nat)
    requires pa.Valid()
    modifies pa`used, pa`live, pa.bitmap, mem
    ensures pa.Valid()
    ensures Fresh(old(pa.used), old(mem.words), pa.used, mem.words, if ok then {dst} else {}, pa.frameEnd)
    ensures AfterPages(old(pa.used), pa.frameEnd, 1) == if ok then Some(pa.used) else None
    ensures ok ==> pa.frameEnd <= 0x200_0000
    ensures ok && src != dst ==> Copied(old(mem.words), src, mem.words, dst)
  {
    hide Allocator.Valid, AfterPages, Search;
    ghost var before := mem.words;
    ok, dst := AllocateTable(pa, mem, false);
    if ok {
      ghost var cleared := mem.words;
      FramesKept(before, cleared, {dst});
      CopyTable(mem, src, dst);
      assert src != dst ==> SameFrame(before, cleared, src);
    }
  }

  // ---------------------------------------------------------------- how many pages the clones take

  /** The entries whose tables the clones follow. */
  predicate Followed(e: Word) {
    e[ENTRY_PRESENT] && !e[ENTRY_PS]
  }

  /** The pages that cloning a table of a level takes: its own, and those of the tables it refers to. */
  ghost function CloneCount(m: Words, table: nat, l: nat): nat
    requires 1 <= l <= 3
    decreases l, 1, 0
  {
    if l == 1 then 1 else 1 + CountUpTo(m, table, l, 512)
  }

  /** ... of which those for its first i entries. */
  ghost function CountUpTo(m: Words, table: nat, l: nat, i: nat): nat
    requires 2 <= l <= 3 && i <= 512
    decreases l, 0, i
  {
    if i == 0 then 0
    else CountUpTo(m, table, l, i - 1) + EntryCount(m, table, l, i - 1)
  }

  ghost function EntryCount(m: Words, table: nat, l: nat, i: nat): nat
    requires 2 <= l <= 3
    decreases l, 0, i
  {
    if Followed(InFrame(m, table, i)) then CloneCount(m, CodeFrame(InFrame(m, table, i)), l - 1) else 0
  }

  /** The tables the clones follow lie in frames that will not be handed out. */
  ghost predicate ClonesKept(m: Words, table: nat, l: nat, used: set<nat>, frameEnd: nat)
    decreases l
  {
    && NotFree(table, used, frameEnd)
    && (l > 1 ==> forall i | 0 <= i < 512 && Followed(InFrame(m, table, i)) ::
          ClonesKept(m, CodeFrame(InFrame(m, table, i)), l - 1, used, frameEnd))
  }

  /** Writing frames that were free changes neither those tables nor their number. */
  lemma {:induction false} SameCount(
      m: Words, n: Words, table: nat, l: nat, used: set<nat>, used': set<nat>, frames: set<nat>, frameEnd: nat)
    requires 1 <= l <= 3 && ClonesKept(m, table, l, used, frameEnd) && Fresh(used, m, used', n, frames, frameEnd)
    ensures ClonesKept(n, table, l, used', frameEnd) && CloneCount(n, table, l) == CloneCount(m, table, l)
    decreases l
  {
    FramesKept(m, n, frames);
    assert SameFrame(m, n, table);
    hide CodeFrame, OnlyFrames;
    if l > 1 {
      forall i | 0 <= i < 512 && Followed(InFrame(n, table, i))
        ensures ClonesKept(n, CodeFrame(InFrame(n, table, i)), l - 1, used', frameEnd)
        ensures EntryCount(n, table, l, i) == EntryCount(m, table, l, i)
      {
        assert InFrame(n, table, i) == InFrame(m, table, i);
        SameCount(m, n, CodeFrame(InFrame(m, table, i)), l - 1, used, used', frames, frameEnd);
      }
      forall i | 0 <= i < 512 && !Followed(InFrame(n, table, i))
        ensures EntryCount(n, table, l, i) == EntryCount(m, table, l, i)
      {
        assert InFrame(n, table, i) == InFrame(m, table, i);
      }
      SameSum(m, n, table, l, 512);
    }
  }

  lemma {:induction false} SameSum(m: Words, n: Words, table: nat, l: nat, i: nat)
    requires 2 <= l <= 3 && i <= 512
    requires forall j | 0 <= j < 512 :: EntryCount(n, table, l, j) == EntryCount(m, table, l, j)
    ensures CountUpTo(n, table, l, i) == CountUpTo(m, table, l, i)
  {
    hide EntryCount;
    if i > 0 {
      SameSum(m, n, table, l, i - 1);
    }
  }

  lemma {:induction false} SumMonotone(m: Words, table: nat, l: nat, i: nat, k: nat)
    requires 2 <= l <= 3 && i <= k <= 512
    ensures CountUpTo(m, table, l, i) <= CountUpTo(m, table, l, k)
  {
    hide EntryCount;
    if i < k {
      SumMonotone(m, table, l, i, k - 1);
    }
  }

  /** The set_masked_bits call on an entry's frame field. */
  method SetFrame(e: Word, phys: nat) returns (r: Word)
    requires phys < FRAME_LIMIT * PAGE_SIZE
    ensures Value(r[ENTRY_PHYS..52]) == phys / PAGE_SIZE
  {
    FrameWritten(e, phys);
    r := WithFrame(e, phys);
  }

  /**
   * clone_lv2_table and clone_lv3_table. The table is copied and the tables below
   * it are cloned too, but the address of such a clone goes into a local copy of
   * the entry: the copied table keeps pointing at the original lower tables.
   */
  method CloneTree(pa: Allocator, mem: PhysicalMemory, src: nat, l: nat)
    returns (ok: bool, dst: nat, ghost frames: set<nat>)
    requires pa.Valid() && 1 <= l <= 3
    modifies pa`used, pa`live, pa.bitmap, mem
    ensures pa.Valid()
    ensures Fresh(old(pa.used), old(mem.words), pa.used, mem.words, frames, pa.frameEnd)
    ensures ClonesKept(old(mem.words), src, l, old(pa.used), pa.frameEnd) ==>
              AfterPages(old(pa.used), pa.frameEnd, CloneCount(old(mem.words), src, l))
              == if ok then Some(pa.used) else None
    ensures ok ==> dst in frames && pa.frameEnd <= 0x200_0000
    ensures ok && src != dst ==> Copied(old(mem.words), src, mem.words, dst)
    decreases l
  {
    hide Allocator.Valid, AfterPages, ClonesKept, CloneCount, CountUpTo, EntryCount, Fresh, CodeFrame;
    ghost var m0, u0 := mem.words, pa.used;
    ghost var kept := ClonesKept(m0, src, l, u0, pa.frameEnd);
    ok, dst := CloneTable(pa, mem, src);
    frames := if ok then {dst} else {};
    CountStarts(m0, src, l);
    if !ok || l == 1 {
      if !ok {
        MorePagesFail(u0, pa.frameEnd, 1, CloneCount(m0, src, l));
      }
      return;
    }
    if kept {
      NotTheSource(m0, src, l, u0, pa.used, mem.words, pa.frameEnd, dst);
    }
    ghost var m1 := mem.words;
    for i := 0 to 512
      invariant ok && pa.Valid() && dst in frames && Fresh(u0, m0, pa.used, mem.words, frames, pa.frameEnd)
      invariant forall j | 0 <= j < 512 :: InFrame(mem.words, dst, j) == InFrame(m1, dst, j)
      invariant pa.frameEnd <= 0x200_0000
      invariant kept ==> AfterPages(u0, pa.frameEnd, 1 + CountUpTo(m0, src, l, i)) == Some(pa.used)
    {
      var entry := InFrame(mem.words, dst, i);
      if kept {
        CountAt(m0, src, l, i, u0, pa.frameEnd);
      }
      if entry[ENTRY_PRESENT] && !entry[ENTRY_PS] {
        ghost var m, u := mem.words, pa.used;
        if kept {
          SameCount(m0, m, CodeFrame(entry), l - 1, u0, u, frames, pa.frameEnd);
          PagesCompose(u0, pa.frameEnd, 1 + CountUpTo(m0, src, l, i), EntryCount(m0, src, l, i));
        }
        var lower;
        ghost var more;
        ok, lower, more := CloneTree(pa, mem, CodeFrame(entry), l - 1);
        FreshCompose(u0, m0, u, m, pa.used, mem.words, frames, more, pa.frameEnd);
        if !ok {
          frames := frames + more;
          if kept {
            MorePagesFail(u0, pa.frameEnd, 1 + CountUpTo(m0, src, l, i + 1), CloneCount(m0, src, l));
          }
          return;
        }
        FrameInRange(u, m, pa.used, mem.words, more, pa.frameEnd, lower);
        entry := SetFrame(entry, lower * PAGE_SIZE);
        DestinationKept(u0, m0, u, m, pa.used, mem.words, frames, more, pa.frameEnd, dst);
        frames := frames + more;
      }
    }
    CountEnds(m0, src, l);
    CopyStands(m0, src, m1, mem.words, dst);
  }

  lemma CountStarts(m: Words, table: nat, l: nat)
    requires 1 <= l <= 3
    ensures CloneCount(m, table, l) >= 1 && (l == 1 ==> CloneCount(m, table, l) == 1)
    ensures l > 1 ==> CountUpTo(m, table, l, 0) == 0
  {
    hide EntryCount;
  }

  lemma CountEnds(m: Words, table: nat, l: nat)
    requires 2 <= l <= 3
    ensures CloneCount(m, table, l) == 1 + CountUpTo(m, table, l, 512)
  {
    hide EntryCount;
  }

  /** One entry of the sum, and what is known of the table it refers to. */
  lemma CountAt(m: Words, table: nat, l: nat, i: nat, used: set<nat>, frameEnd: nat)
    requires 2 <= l <= 3 && i < 512 && ClonesKept(m, table, l, used, frameEnd)
    ensures CountUpTo(m, table, l, i + 1) == CountUpTo(m, table, l, i) + EntryCount(m, table, l, i)
    ensures 1 + CountUpTo(m, table, l, i + 1) <= CloneCount(m, table, l)
    ensures var e := InFrame(m, table, i);
            if Followed(e) then
              && EntryCount(m, table, l, i) == CloneCount(m, CodeFrame(e), l - 1)
              && ClonesKept(m, CodeFrame(e), l - 1, used, frameEnd)
            else EntryCount(m, table, l, i) == 0
  {
    hide CodeFrame;
    SumMonotone(m, table, l, i + 1, 512);
    CountEnds(m, table, l);
  }

  lemma NotTheSource(
      m: Words, src: nat, l: nat, used: set<nat>, used': set<nat>, n: Words, frameEnd: nat, dst: nat)
    requires ClonesKept(m, src, l, used, frameEnd) && Fresh(used, m, used', n, {dst}, frameEnd)
    ensures src != dst
  {
    assert dst in {dst};
  }

  lemma FrameInRange(used: set<nat>, m: Words, used': set<nat>, n: Words, frames: set<nat>, frameEnd: nat, f: nat)
    requires Fresh(used, m, used', n, frames, frameEnd) && f in frames
    ensures 1 <= f < frameEnd
  {
  }

  lemma DestinationKept(
      u0: set<nat>, m0: Words, u: set<nat>, m: Words, u': set<nat>, n: Words, frames: set<nat>, more: set<nat>,
      end: nat, dst: nat)
    requires Fresh(u0, m0, u, m, frames, end) && Fresh(u, m, u', n, more, end) && dst in frames
    ensures forall j | 0 <= j < 512 :: InFrame(n, dst, j) == InFrame(m, dst, j)
  {
    FramesKept(m, n, more);
    assert SameFrame(m, n, dst);
  }

  lemma CopyStands(m0: Words, src: nat, m1: Words, n: Words, dst: nat)
    requires forall j | 0 <= j < 512 :: InFrame(n, dst, j) == InFrame(m1, dst, j)
    ensures Copied(m0, src, m1, dst) ==> Copied(m0, src, n, dst)
  {
  }

  // ---------------------------------------------------------------- reconstruct

  /** What the finished tables look like, relative to the boot tables in memory `m`. */
  ghost predicate Rebuilt(m: Words, n: Words, oldRoot: nat, root: nat, direct: nat, clones: map<nat, nat>, end: nat) {
    && end <= 512
    && (forall j | 0 <= j < 512 && j != DIRECT_SLOT && j !in clones :: InFrame(n, root, j) == Zero())
    && (forall i | 0 <= i < 512 :: IsDirect(Decode(InFrame(n, direct, i)), i))
    && OpenReference(Decode(InFrame(n, root, DIRECT_SLOT)), direct)
    && (forall j | KERNEL_SLOTS <= j < end :: j in clones <==> Decode(InFrame(m, oldRoot, j)).Entry?)
    && (forall j | j in clones ::
          && KERNEL_SLOTS <= j < end && OpenReference(Decode(InFrame(n, root, j)), clones[j])
          && Copied(m, Decode(InFrame(m, oldRoot, j)).frame, n, clones[j]))
  }

  ghost predicate PointsTo(e: Pte, table: nat) {
    e.Entry? && !e.large && e.frame == table
  }

  /** ... and takes no rights away. */
  ghost predicate OpenReference(e: Pte, table: nat) {
    PointsTo(e, table) && e.writable && !e.noExecute && !e.user
  }

  /** The new level-4 entries keep user mode out. */
  function ForKernel(r: Rights): Rights {
    r.(user := false)
  }

  /** The rights the tables below the level-4 entry give. */
  function RightsBelow(v: View, root: nat, a: nat): Rights {
    match Slot(v, root, Page(a, 4) % 512)
    case Absent => Rights(false, false, false)
    case Entry(_, _, _, _, frame) => RightsFrom(v, frame, 3, a)
  }

  /** A 1GiB leaf for the i-th gigabyte. */
  ghost predicate IsDirect(e: Pte, i: nat) {
    e.Entry? && e.large && e.writable && !e.noExecute && !e.user && e.frame == i * 0x4_0000
  }

  /** The direct map: DIRECT_MAP_BASE + p translates to p. */
  lemma DirectMapWalk(m: Words, n: Words, oldRoot: nat, root: nat, direct: nat, clones: map<nat, nat>, p: nat)
    requires Rebuilt(m, n, oldRoot, root, direct, clones, 512) && p < DIRECT_MAP_SIZE
    ensures Walk(Decoded(n), root, DIRECT_BASE48 + p).Mapped?
    ensures Walk(Decoded(n), root, DIRECT_BASE48 + p).phys == p
    ensures Visits(Decoded(n), root, 4, DIRECT_BASE48 + p) <= {root, direct}
    ensures RightsFrom(Decoded(n), root, 4, DIRECT_BASE48 + p) == Rights(true, true, false)
  {
    var v, a := Decoded(n), DIRECT_BASE48 + p;
    PageNumbers(a);
    DirectSlotIsRight();
    assert Page(a, 4) == DIRECT_SLOT;
    SlotDecodes(n, root, DIRECT_SLOT);
    var i := Page(a, 3) % 512;
    assert i == p / 0x4000_0000;
    SlotDecodes(n, direct, i);
    assert IsDirect(Decode(InFrame(n, direct, i)), i);
    assert WalkFrom(v, root, 4, a) == WalkFrom(v, direct, 3, a);
    assert Visits(v, root, 4, a) == {root} + Visits(v, direct, 3, a);
  }

  /** Below the direct map nothing is mapped. */
  lemma BelowIsUnmapped(m: Words, n: Words, oldRoot: nat, root: nat, direct: nat, clones: map<nat, nat>, a: nat)
    requires Rebuilt(m, n, oldRoot, root, direct, clones, 512) && a < DIRECT_BASE48
    ensures Walk(Decoded(n), root, a) == Fault && Visits(Decoded(n), root, 4, a) == {root}
  {
    PageNumbers(a);
    DirectSlotIsRight();
    SlotDecodes(n, root, Page(a, 4));
    assert InFrame(n, root, Page(a, 4)) == Zero();
  }

  /** Above the direct map every address translates as it did in the boot tables. */
  lemma KernelWalk(m: Words, n: Words, oldRoot: nat, root: nat, direct: nat, clones: map<nat, nat>, a: nat)
    requires Rebuilt(m, n, oldRoot, root, direct, clones, 512)
    requires DIRECT_BASE48 + DIRECT_MAP_SIZE <= a < ADDRESS_LIMIT
    requires forall f | f in Visits(Decoded(m), oldRoot, 4, a) :: SameFrame(m, n, f)
    requires forall j | KERNEL_SLOTS <= j < 512 ::
               Decode(InFrame(m, oldRoot, j)).Entry? ==> !Decode(InFrame(m, oldRoot, j)).large
    ensures Walk(Decoded(n), root, a) == Walk(Decoded(m), oldRoot, a)
    ensures RightsFrom(Decoded(n), root, 4, a) == ForKernel(RightsBelow(Decoded(m), oldRoot, a))
    ensures Visits(Decoded(n), root, 4, a) <= {root} + clones.Values + Visits(Decoded(m), oldRoot, 4, a)
  {
    hide Walk, WalkFrom, Visits, Decode, RightsFrom;
    var j := Page(a, 4);
    PageNumbers(a);
    DirectSlotIsRight();
    if j in clones {
      KernelSlotWalk(m, n, oldRoot, root, Decode(InFrame(m, oldRoot, j)).frame, clones[j], a);
    } else {
      AbsentWord();
      EmptySlotWalk(m, oldRoot, a);
      EmptySlotWalk(n, root, a);
    }
  }

  lemma EmptySlotWalk(m: Words, root: nat, a: nat)
    requires a < ADDRESS_LIMIT && Decode(InFrame(m, root, Page(a, 4))).Absent?
    ensures Walk(Decoded(m), root, a) == Fault && Visits(Decoded(m), root, 4, a) == {root}
    ensures RightsFrom(Decoded(m), root, 4, a) == RightsBelow(Decoded(m), root, a) == Rights(false, false, false)
  {
    PageNumbers(a);
    SlotDecodes(m, root, Page(a, 4));
  }

  lemma AbsentWord()
    ensures Decode(Zero()).Absent?
  {
  }

  lemma KernelSlotWalk(m: Words, n: Words, oldRoot: nat, root: nat, lv3: nat, clone: nat, a: nat)
    requires a < ADDRESS_LIMIT && PointsTo(Decode(InFrame(m, oldRoot, Page(a, 4))), lv3)
    requires OpenReference(Decode(InFrame(n, root, Page(a, 4))), clone) && Copied(m, lv3, n, clone)
    requires forall f | f in Visits(Decoded(m), oldRoot, 4, a) :: SameFrame(m, n, f)
    ensures Walk(Decoded(n), root, a) == Walk(Decoded(m), oldRoot, a)
    ensures RightsFrom(Decoded(n), root, 4, a) == ForKernel(RightsBelow(Decoded(m), oldRoot, a))
    ensures Visits(Decoded(n), root, 4, a) <= {root, clone} + Visits(Decoded(m), oldRoot, 4, a)
  {
    PageNumbers(a);
    SlotDecodes(m, oldRoot, Page(a, 4));
    SlotDecodes(n, root, Page(a, 4));
    assert Visits(Decoded(m), oldRoot, 4, a) == {oldRoot} + Visits(Decoded(m), lv3, 3, a);
    assert Visits(Decoded(n), root, 4, a) == {root} + Visits(Decoded(n), clone, 3, a);
    SharedBelow(m, n, lv3, clone, a);
  }

  /** A copied level-3 table leads into the very tables the original leads into. */
  lemma SharedBelow(m: Words, n: Words, lv3: nat, clone: nat, a: nat)
    requires Copied(m, lv3, n, clone)
    requires forall f | f in Visits(Decoded(m), lv3, 3, a) :: SameFrame(m, n, f)
    ensures WalkFrom(Decoded(n), clone, 3, a) == WalkFrom(Decoded(m), lv3, 3, a)
    ensures RightsFrom(Decoded(n), clone, 3, a) == RightsFrom(Decoded(m), lv3, 3, a)
    ensures Visits(Decoded(n), clone, 3, a) - {clone} <= Visits(Decoded(m), lv3, 3, a)
    ensures var e := Slot(Decoded(m), lv3, Page(a, 3) % 512);
            e.Entry? && !e.large ==>
              e.frame in Visits(Decoded(n), clone, 3, a) && e.frame in Visits(Decoded(m), lv3, 3, a)
  {
    var v, v', i := Decoded(m), Decoded(n), Page(a, 3) % 512;
    SlotDecodes(m, lv3, i);
    SlotDecodes(n, clone, i);
    assert InFrame(n, clone, i) == InFrame(m, lv3, i);
    var e := Slot(v, lv3, i);
    if e.Entry? && !e.large {
      forall f | f in Visits(v, e.frame, 2, a)
        ensures SameSlots(v, v', f)
      {
        assert SameFrame(m, n, f);
        SameFrameSameSlots(m, n, f);
      }
      WalkReads(v, v', e.frame, 2, a);
    }
  }

  /** What the tables under construction need from each other's frames. */
  ghost predicate Disjoint(root: nat, direct: nat, clones: map<nat, nat>, frames: set<nat>) {
    && root in frames && direct in frames && root != direct
    && (forall j | j in clones :: clones[j] in frames && clones[j] != root)
  }

  /** Writing frames outside the construction leaves it as it is. */
  lemma RebuiltElsewhere(
      m: Words, n: Words, n': Words, oldRoot: nat, root: nat, direct: nat, clones: map<nat, nat>, end: nat,
      frames: set<nat>, more: set<nat>)
    requires Rebuilt(m, n, oldRoot, root, direct, clones, end) && Disjoint(root, direct, clones, frames)
    requires OnlyFrames(n, n', more) && frames !! more
    ensures Rebuilt(m, n', oldRoot, root, direct, clones, end)
  {
    hide Decode;
    FramesKept(n, n', more);
    assert SameFrame(n, n', root) && SameFrame(n, n', direct);
    assert forall j | 0 <= j < 512 :: InFrame(n', root, j) == InFrame(n, root, j);
    assert forall j | 0 <= j < 512 :: InFrame(n', direct, j) == InFrame(n, direct, j);
    forall j | j in clones
      ensures Copied(m, Decode(InFrame(m, oldRoot, j)).frame, n', clones[j])
    {
      assert SameFrame(n, n', clones[j]);
      assert Copied(m, Decode(InFrame(m, oldRoot, j)).frame, n, clones[j]);
    }
  }

  /** Pointing a level-4 slot at a clone of the old slot's table. */
  lemma CloneInstalled(
      m: Words, n: Words, n': Words, oldRoot: nat, root: nat, direct: nat, clones: map<nat, nat>, end: nat,
      frames: set<nat>, clone: nat, e: Word)
    requires Rebuilt(m, n, oldRoot, root, direct, clones, end) && Disjoint(root, direct, clones, frames)
    requires KERNEL_SLOTS <= end < 512 && Decode(InFrame(m, oldRoot, end)).Entry? && clone != root
    requires Copied(m, Decode(InFrame(m, oldRoot, end)).frame, n, clone) && OpenReference(Decode(e), clone)
    requires n' == n[512 * root + end := e]
    ensures Rebuilt(m, n', oldRoot, root, direct, clones[end := clone], end + 1)
  {
    hide Decode;
    assert InFrame(n', root, end) == e;
    assert forall j | 0 <= j < 512 && j != end :: InFrame(n', root, j) == InFrame(n, root, j);
    forall f: nat | f != root
      ensures SameFrame(n, n', f)
    {
    }
    assert SameFrame(n, n', direct);
    assert forall j | 0 <= j < 512 :: InFrame(n', direct, j) == InFrame(n, direct, j);
    forall j | j in clones[end := clone]
      ensures Copied(m, Decode(InFrame(m, oldRoot, j)).frame, n', clones[end := clone][j])
    {
      var c := clones[end := clone][j];
      assert SameFrame(n, n', c);
      CopiedKept(m, Decode(InFrame(m, oldRoot, j)).frame, n, n', c);
    }
  }

  lemma CopiedKept(m: Words, src: nat, n: Words, n': Words, dst: nat)
    requires Copied(m, src, n, dst) && SameFrame(n, n', dst)
    ensures Copied(m, src, n', dst)
  {
  }

  /** A slot that is not present in the boot tables stays empty. */
  lemma SlotSkipped(m: Words, n: Words, oldRoot: nat, root: nat, direct: nat, clones: map<nat, nat>, end: nat)
    requires Rebuilt(m, n, oldRoot, root, direct, clones, end)
    requires KERNEL_SLOTS <= end < 512 && Decode(InFrame(m, oldRoot, end)).Absent?
    ensures Rebuilt(m, n, oldRoot, root, direct, clones, end + 1)
  {
  }

  /** The loop that fills the direct map's level-3 table. */
  method FillDirectMap(mem: PhysicalMemory, lv3tbl: nat)
    requires forall i | 0 <= i < 512 :: InFrame(mem.words, lv3tbl, i) == Zero()
    modifies mem
    ensures OnlyFrames(old(mem.words), mem.words, {lv3tbl})
    ensures forall i | 0 <= i < 512 :: IsDirect(Decode(InFrame(mem.words, lv3tbl, i)), i)
  {
    hide Decode, Value;
    ghost var before := mem.words;
    for i := 0 to 512
      invariant OnlyFrames(before, mem.words, {lv3tbl})
      invariant forall j | 0 <= j < i :: IsDirect(Decode(InFrame(mem.words, lv3tbl, j)), j)
      invariant forall j | i <= j < 512 :: InFrame(mem.words, lv3tbl, j) == Zero()
    {
      ghost var m := mem.words;
      var e := InitPageReference(InFrame(mem.words, lv3tbl, i), i * 0x4000_0000, false);
      assert (512 * lv3tbl + i) / 512 == lv3tbl;
      mem.Store(512 * lv3tbl + i, e);
      assert InFrame(mem.words, lv3tbl, i) == e;
      assert forall j | 0 <= j < 512 && j != i :: InFrame(mem.words, lv3tbl, j) == InFrame(m, lv3tbl, j);
    }
  }

  /** The boot tables of the kernel's addresses lie in frames the allocator will not hand out. */
  ghost predicate TablesProtected(m: Words, oldRoot: nat, used: set<nat>, frameEnd: nat) {
    && NotFree(oldRoot, used, frameEnd)
    && (forall a: nat, f |
          DIRECT_BASE48 + DIRECT_MAP_SIZE <= a < ADDRESS_LIMIT && f in Visits(Decoded(m), oldRoot, 4, a)
          :: NotFree(f, used, frameEnd))
  }

  /** The boot tables' level-4 entries for the kernel's slots are ordinary table references. */
  ghost predicate OrdinaryReferences(m: Words, oldRoot: nat) {
    forall j | KERNEL_SLOTS <= j < 512 && InFrame(m, oldRoot, j)[ENTRY_PRESENT] ::
      !InFrame(m, oldRoot, j)[ENTRY_PS] && Plain(InFrame(m, oldRoot, j))
  }

  lemma LevelThreeProtected(m: Words, oldRoot: nat, used: set<nat>, frameEnd: nat, j: nat)
    requires TablesProtected(m, oldRoot, used, frameEnd) && OrdinaryReferences(m, oldRoot)
    requires KERNEL_SLOTS <= j < 512 && Decode(InFrame(m, oldRoot, j)).Entry?
    ensures NotFree(Decode(InFrame(m, oldRoot, j)).frame, used, frameEnd)
  {
    var a := j * 0x80_0000_0000;
    PageNumbers(a);
    DirectSlotIsRight();
    assert Page(a, 4) == j;
    SlotDecodes(m, oldRoot, j);
    var lv3 := Decode(InFrame(m, oldRoot, j)).frame;
    assert Visits(Decoded(m), oldRoot, 4, a) == {oldRoot} + Visits(Decoded(m), lv3, 3, a);
    assert lv3 in Visits(Decoded(m), lv3, 3, a);
  }

  /** Allocations made meanwhile have not touched the boot tables' root. */
  lemma OldSlot(m0: Words, m: Words, oldRoot: nat, u0: set<nat>, frames: set<nat>, frameEnd: nat, j: nat)
    requires TablesProtected(m0, oldRoot, u0, frameEnd) && j < 512
    requires OnlyFrames(m0, m, frames) && u0 !! frames && forall f | f in frames :: 1 <= f < frameEnd
    ensures InFrame(m, oldRoot, j) == InFrame(m0, oldRoot, j)
    ensures Decode(InFrame(m, oldRoot, j)).Entry? <==> InFrame(m, oldRoot, j)[ENTRY_PRESENT]
  {
    FramesKept(m0, m, frames);
    assert SameFrame(m0, m, oldRoot);
  }

  /** ... nor the level-3 table a present slot refers to. */
  lemma OldTable(m0: Words, m: Words, oldRoot: nat, u0: set<nat>, frames: set<nat>, frameEnd: nat, j: nat)
    requires TablesProtected(m0, oldRoot, u0, frameEnd) && OrdinaryReferences(m0, oldRoot)
    requires KERNEL_SLOTS <= j < 512 && InFrame(m0, oldRoot, j)[ENTRY_PRESENT]
    requires OnlyFrames(m0, m, frames) && u0 !! frames && forall f | f in frames :: 1 <= f < frameEnd
    ensures CodeFrame(InFrame(m0, oldRoot, j)) == Decode(InFrame(m0, oldRoot, j)).frame
    ensures NotFree(CodeFrame(InFrame(m0, oldRoot, j)), u0, frameEnd)
    ensures SameFrame(m0, m, CodeFrame(InFrame(m0, oldRoot, j)))
  {
    LevelThreeProtected(m0, oldRoot, u0, frameEnd, j);
    FramesKept(m0, m, frames);
  }

  lemma CopiedFrom(m0: Words, m: Words, src: nat, n: Words, dst: nat)
    requires SameFrame(m0, m, src) && Copied(m, src, n, dst)
    ensures Copied(m0, src, n, dst)
  {
  }

  lemma EmptySlot(m: Words, n: Words, oldRoot: nat, root: nat, direct: nat, clones: map<nat, nat>, end: nat)
    requires Rebuilt(m, n, oldRoot, root, direct, clones, end) && KERNEL_SLOTS <= end < 512
    ensures InFrame(n, root, end) == Zero()
  {
  }

  /** The pages that cloning the kernel's level-4 slots below j takes. */
  ghost function SlotsUpTo(m: Words, root: nat, j: nat): nat {
    if j <= KERNEL_SLOTS then 0
    else SlotsUpTo(m, root, j - 1) + SlotCount(m, root, j - 1)
  }

  ghost function SlotCount(m: Words, root: nat, j: nat): nat {
    if InFrame(m, root, j)[ENTRY_PRESENT] then CloneCount(m, CodeFrame(InFrame(m, root, j)), 3) else 0
  }

  /** All pages reconstruct takes: the root, the direct map's table, and the clones. */
  ghost function HostTableCount(m: Words, root: nat): nat {
    2 + SlotsUpTo(m, root, 512)
  }

  /** Every table that cloning the kernel's slots follows lies in a frame that will not be handed out. */
  ghost predicate BootClonesKept(m: Words, root: nat, used: set<nat>, frameEnd: nat) {
    forall j | KERNEL_SLOTS <= j < 512 && InFrame(m, root, j)[ENTRY_PRESENT] ::
      ClonesKept(m, CodeFrame(InFrame(m, root, j)), 3, used, frameEnd)
  }

  lemma {:induction false} SlotsMonotone(m: Words, root: nat, j: nat, k: nat)
    requires KERNEL_SLOTS <= j <= k
    ensures SlotsUpTo(m, root, j) <= SlotsUpTo(m, root, k)
  {
    hide SlotCount;
    if j < k {
      SlotsMonotone(m, root, j, k - 1);
    }
  }

  lemma SlotAt(m: Words, root: nat, j: nat, used: set<nat>, frameEnd: nat)
    requires KERNEL_SLOTS <= j < 512
    ensures SlotsUpTo(m, root, j + 1) == SlotsUpTo(m, root, j) + SlotCount(m, root, j)
    ensures SlotsUpTo(m, root, j + 1) <= SlotsUpTo(m, root, 512)
    ensures var e := InFrame(m, root, j);
            if e[ENTRY_PRESENT] then
              && SlotCount(m, root, j) == CloneCount(m, CodeFrame(e), 3)
              && (BootClonesKept(m, root, used, frameEnd) ==> ClonesKept(m, CodeFrame(e), 3, used, frameEnd))
            else SlotCount(m, root, j) == 0
  {
    hide CodeFrame, CloneCount, ClonesKept;
    SlotsMonotone(m, root, j + 1, 512);
  }

  /** The loop over the kernel's level-4 slots. */
  method CloneKernelSlots(
      pa: Allocator, mem: PhysicalMemory, oldRoot: nat, root: nat, ghost direct: nat,
      ghost m0: Words, ghost u0: set<nat>, ghost frames0: set<nat>)
    returns (ok: bool, ghost clones: map<nat, nat>, ghost frames: set<nat>)
    requires pa.Valid() && Fresh(u0, m0, pa.used, mem.words, frames0, pa.frameEnd)
    requires Disjoint(root, direct, map[], frames0)
    requires Rebuilt(m0, mem.words, oldRoot, root, direct, map[], KERNEL_SLOTS)
    requires TablesProtected(m0, oldRoot, u0, pa.frameEnd) && OrdinaryReferences(m0, oldRoot)
    modifies pa`used, pa`live, pa.bitmap, mem
    ensures pa.Valid()
    ensures Fresh(u0, m0, pa.used, mem.words, frames, pa.frameEnd)
    ensures BootClonesKept(m0, oldRoot, u0, pa.frameEnd) ==>
              AfterPages(old(pa.used), pa.frameEnd, SlotsUpTo(m0, oldRoot, 512)) == if ok then Some(pa.used) else None
    ensures ok ==> Disjoint(root, direct, clones, frames)
    ensures ok ==> Rebuilt(m0, mem.words, oldRoot, root, direct, clones, 512)
  {
    hide Allocator.Valid, Rebuilt, TablesProtected, Decode, Visits, OrdinaryReferences, BootClonesKept, ClonesKept,
         SlotsUpTo, SlotCount, CloneCount, CodeFrame, AfterPages;
    ghost var kept, u1 := BootClonesKept(m0, oldRoot, u0, pa.frameEnd), pa.used;
    clones, frames, ok := map[], frames0, true;
    NoSlots(m0, oldRoot, u1, pa.frameEnd);
    for j := KERNEL_SLOTS to 512
      invariant ok && pa.Valid() && Fresh(u0, m0, pa.used, mem.words, frames, pa.frameEnd)
      invariant Disjoint(root, direct, clones, frames)
      invariant Rebuilt(m0, mem.words, oldRoot, root, direct, clones, j)
      invariant kept ==> AfterPages(u1, pa.frameEnd, SlotsUpTo(m0, oldRoot, j)) == Some(pa.used)
    {
      OldSlot(m0, mem.words, oldRoot, u0, frames, pa.frameEnd, j);
      SlotAt(m0, oldRoot, j, u0, pa.frameEnd);
      var oldEntry := InFrame(mem.words, oldRoot, j);
      if oldEntry[ENTRY_PRESENT] {
        ghost var m, u := mem.words, pa.used;
        ghost var more;
        PagesCompose(u1, pa.frameEnd, SlotsUpTo(m0, oldRoot, j), SlotCount(m0, oldRoot, j));
        ok, clones, more := CloneSlot(pa, mem, oldRoot, root, direct, m0, u0, frames, clones, j);
        frames := frames + more;
        if !ok {
          if kept {
            MorePagesFail(u1, pa.frameEnd, SlotsUpTo(m0, oldRoot, j + 1), SlotsUpTo(m0, oldRoot, 512));
          }
          return;
        }
      } else {
        SlotSkipped(m0, mem.words, oldRoot, root, direct, clones, j);
      }
    }
  }

  lemma NoSlots(m: Words, root: nat, used: set<nat>, frameEnd: nat)
    ensures SlotsUpTo(m, root, KERNEL_SLOTS) == 0 && AfterPages(used, frameEnd, 0) == Some(used)
  {
  }

  /** One present slot: its level-3 table is cloned, and the new root refers to the clone. */
  method CloneSlot(
      pa: Allocator, mem: PhysicalMemory, oldRoot: nat, root: nat, ghost direct: nat,
      ghost m0: Words, ghost u0: set<nat>, ghost frames: set<nat>, ghost clones: map<nat, nat>, j: nat)
    returns (ok: bool, ghost clones': map<nat, nat>, ghost more: set<nat>)
    requires pa.Valid() && Fresh(u0, m0, pa.used, mem.words, frames, pa.frameEnd)
    requires Disjoint(root, direct, clones, frames) && KERNEL_SLOTS <= j < 512
    requires Rebuilt(m0, mem.words, oldRoot, root, direct, clones, j)
    requires TablesProtected(m0, oldRoot, u0, pa.frameEnd) && OrdinaryReferences(m0, oldRoot)
    requires InFrame(mem.words, oldRoot, j) == InFrame(m0, oldRoot, j) && InFrame(m0, oldRoot, j)[ENTRY_PRESENT]
    modifies pa`used, pa`live, pa.bitmap, mem
    ensures pa.Valid()
    ensures Fresh(u0, m0, pa.used, mem.words, frames + more, pa.frameEnd)
    ensures ClonesKept(m0, CodeFrame(InFrame(m0, oldRoot, j)), 3, u0, pa.frameEnd) ==>
              AfterPages(old(pa.used), pa.frameEnd, CloneCount(m0, CodeFrame(InFrame(m0, oldRoot, j)), 3))
              == if ok then Some(pa.used) else None
    ensures ok ==> Disjoint(root, direct, clones', frames + more)
    ensures ok ==> Rebuilt(m0, mem.words, oldRoot, root, direct, clones', j + 1)
  {
    hide Allocator.Valid, Rebuilt, TablesProtected, Decode, Visits, OrdinaryReferences, ClonesKept, CloneCount,
         CodeFrame, AfterPages;
    ghost var m, u, entry := mem.words, pa.used, InFrame(mem.words, oldRoot, j);
    ghost var lv3 := CodeFrame(entry);
    clones' := clones;
    OldTable(m0, m, oldRoot, u0, frames, pa.frameEnd, j);
    if ClonesKept(m0, lv3, 3, u0, pa.frameEnd) {
      SameCount(m0, m, lv3, 3, u0, u, frames, pa.frameEnd);
    }
    var clone;
    ok, clone, more := CloneTree(pa, mem, CodeFrame(InFrame(mem.words, oldRoot, j)), 3);
    FreshCompose(u0, m0, u, m, pa.used, mem.words, frames, more, pa.frameEnd);
    if !ok {
      return;
    }
    RebuiltElsewhere(m0, m, mem.words, oldRoot, root, direct, clones, j, frames, more);
    CopiedFrom(m0, m, lv3, mem.words, clone);
    PresentIsEntry(InFrame(m0, oldRoot, j));
    ghost var n := mem.words;
    EmptySlot(m0, n, oldRoot, root, direct, clones, j);
    var e := InitTableReference(InFrame(mem.words, root, j), clone * PAGE_SIZE, false);
    mem.Store(512 * root + j, e);
    CloneInstalled(m0, n, mem.words, oldRoot, root, direct, clones, j, frames, clone, e);
    assert (512 * root + j) / 512 == root;
    clones' := clones[j := clone];
  }

  lemma PresentIsEntry(e: Word)
    ensures Decode(e).Entry? <==> e[ENTRY_PRESENT]
  {
  }

  /** What reconstruction promises about the new root, relative to the boot tables. */
  ghost predicate Preserves(m: Words, oldRoot: nat, n: Words, root: nat) {
    && (forall a: nat | DIRECT_BASE48 <= a < DIRECT_BASE48 + DIRECT_MAP_SIZE ::
          && Walk(Decoded(n), root, a).Mapped? && Walk(Decoded(n), root, a).phys == a - DIRECT_BASE48
          && RightsFrom(Decoded(n), root, 4, a) == Rights(true, true, false))
    && (forall a: nat | DIRECT_BASE48 + DIRECT_MAP_SIZE <= a < ADDRESS_LIMIT ::
          && Walk(Decoded(n), root, a) == Walk(Decoded(m), oldRoot, a)
          && RightsFrom(Decoded(n), root, 4, a) == ForKernel(RightsBelow(Decoded(m), oldRoot, a)))
    && (forall a: nat | a < DIRECT_BASE48 :: Walk(Decoded(n), root, a) == Fault)
  }

  lemma RebuiltPreserves(
      m: Words, n: Words, oldRoot: nat, root: nat, direct: nat, clones: map<nat, nat>,
      used: set<nat>, frameEnd: nat, frames: set<nat>)
    requires Rebuilt(m, n, oldRoot, root, direct, clones, 512)
    requires TablesProtected(m, oldRoot, used, frameEnd) && OrdinaryReferences(m, oldRoot)
    requires OnlyFrames(m, n, frames) && used !! frames && forall f | f in frames :: 1 <= f < frameEnd
    requires Disjoint(root, direct, clones, frames)
    ensures Preserves(m, oldRoot, n, root) && HostTablesKept(n, root, used + frames, frameEnd)
  {
    hide Rebuilt, Walk, WalkFrom, Visits, OnlyFrames, RightsFrom, RightsBelow;
    forall a: nat | DIRECT_BASE48 <= a < DIRECT_BASE48 + DIRECT_MAP_SIZE
      ensures Walk(Decoded(n), root, a).Mapped? && Walk(Decoded(n), root, a).phys == a - DIRECT_BASE48
      ensures Visits(Decoded(n), root, 4, a) <= {root, direct}
      ensures RightsFrom(Decoded(n), root, 4, a) == Rights(true, true, false)
    {
      DirectMapWalk(m, n, oldRoot, root, direct, clones, a - DIRECT_BASE48);
    }
    FramesKept(m, n, frames);
    forall a: nat | DIRECT_BASE48 + DIRECT_MAP_SIZE <= a < ADDRESS_LIMIT
      ensures Walk(Decoded(n), root, a) == Walk(Decoded(m), oldRoot, a)
      ensures RightsFrom(Decoded(n), root, 4, a) == ForKernel(RightsBelow(Decoded(m), oldRoot, a))
      ensures Visits(Decoded(n), root, 4, a) <= {root} + clones.Values + Visits(Decoded(m), oldRoot, 4, a)
    {
      forall f | f in Visits(Decoded(m), oldRoot, 4, a)
        ensures SameFrame(m, n, f)
      {
        assert NotFree(f, used, frameEnd);
      }
      forall j | KERNEL_SLOTS <= j < 512 && Decode(InFrame(m, oldRoot, j)).Entry?
        ensures !Decode(InFrame(m, oldRoot, j)).large
      {
        assert InFrame(m, oldRoot, j)[ENTRY_PRESENT];
      }
      KernelWalk(m, n, oldRoot, root, direct, clones, a);
    }
    forall a: nat | a < DIRECT_BASE48
      ensures Walk(Decoded(n), root, a) == Fault && Visits(Decoded(n), root, 4, a) == {root}
    {
      BelowIsUnmapped(m, n, oldRoot, root, direct, clones, a);
    }
    forall a: nat, f | a < ADDRESS_LIMIT && f in Visits(Decoded(n), root, 4, a)
      ensures NotFree(f, used + frames, frameEnd)
    {
      if f !in frames {
        assert f in Visits(Decoded(m), oldRoot, 4, a) && DIRECT_BASE48 + DIRECT_MAP_SIZE <= a;
        assert NotFree(f, used, frameEnd);
      }
    }
  }

  /** Every table the new root leads through lies in a frame the allocator will not hand out. */
  ghost predicate HostTablesKept(n: Words, root: nat, used: set<nat>, frameEnd: nat) {
    forall a: nat, f | a < ADDRESS_LIMIT && f in Visits(Decoded(n), root, 4, a) :: NotFree(f, used, frameEnd)
  }

  /** So whatever is written into frames handed out later, every host address translates as before. */
  lemma HostSurvives(
      n: Words, n': Words, root: nat, used: set<nat>, used': set<nat>, frames: set<nat>, frameEnd: nat)
    requires HostTablesKept(n, root, used, frameEnd) && Fresh(used, n, used', n', frames, frameEnd)
    ensures HostTablesKept(n', root, used, frameEnd) && HostTablesKept(n', root, used', frameEnd)
    ensures forall a: nat | a < ADDRESS_LIMIT ::
              && Walk(Decoded(n'), root, a) == Walk(Decoded(n), root, a)
              && RightsFrom(Decoded(n'), root, 4, a) == RightsFrom(Decoded(n), root, 4, a)
  {
    hide WalkFrom, Visits, OnlyFrames, RightsFrom, SameFrame, SameSlots;
    FramesKept(n, n', frames);
    forall a: nat | a < ADDRESS_LIMIT
      ensures Visits(Decoded(n'), root, 4, a) == Visits(Decoded(n), root, 4, a)
      ensures Walk(Decoded(n'), root, a) == Walk(Decoded(n), root, a)
      ensures RightsFrom(Decoded(n'), root, 4, a) == RightsFrom(Decoded(n), root, 4, a)
    {
      forall f | f in Visits(Decoded(n), root, 4, a)
        ensures SameSlots(Decoded(n), Decoded(n'), f)
      {
        assert NotFree(f, used, frameEnd);
        SameFrameSameSlots(n, n', f);
      }
      WalkReads(Decoded(n), Decoded(n'), root, 4, a);
    }
    forall a: nat, f | a < ADDRESS_LIMIT && f in Visits(Decoded(n'), root, 4, a)
      ensures NotFree(f, used, frameEnd) && NotFree(f, used', frameEnd)
    {
      assert Visits(Decoded(n'), root, 4, a) == Visits(Decoded(n), root, 4, a);
      assert NotFree(f, used, frameEnd);
    }
  }

  lemma PreservesSurvives(
      m: Words, oldRoot: nat, n: Words, n': Words, root: nat, used: set<nat>, used': set<nat>, frames: set<nat>,
      frameEnd: nat)
    requires Preserves(m, oldRoot, n, root)
    requires HostTablesKept(n, root, used, frameEnd) && Fresh(used, n, used', n', frames, frameEnd)
    ensures Preserves(m, oldRoot, n', root) && HostTablesKept(n', root, used, frameEnd)
  {
    hide Walk, WalkFrom, Visits, OnlyFrames, RightsFrom, RightsBelow, HostTablesKept, Fresh;
    HostSurvives(n, n', root, used, used', frames, frameEnd);
  }

  /**
   * The new level-4 entries take no rights away. So an address above the direct
   * map keeps its effective rights if and only if the old level-4 entry took away
   * nothing that the tables below it give; rights are never lost.
   */
  lemma RightsKeptExactly(m: Words, oldRoot: nat, n: Words, root: nat, a: nat)
    requires Preserves(m, oldRoot, n, root) && DIRECT_BASE48 + DIRECT_MAP_SIZE <= a < ADDRESS_LIMIT
    requires OrdinaryReferences(m, oldRoot) && Decode(InFrame(m, oldRoot, Page(a, 4))).Entry?
    ensures var e, below := Decode(InFrame(m, oldRoot, Page(a, 4))), RightsBelow(Decoded(m), oldRoot, a);
            var before, after := RightsFrom(Decoded(m), oldRoot, 4, a), RightsFrom(Decoded(n), root, 4, a);
            && (after == before <==>
                  (below.write ==> e.writable) && (below.execute ==> !e.noExecute) && !(below.user && e.user))
            && (before.write ==> after.write) && (before.execute ==> after.execute)
  {
    hide Walk, WalkFrom;
    PageNumbers(a);
    DirectSlotIsRight();
    SlotDecodes(m, oldRoot, Page(a, 4));
    assert InFrame(m, oldRoot, Page(a, 4))[ENTRY_PRESENT];
  }

  /** A boot level-4 entry that forbids execution: below it, writable code becomes executable. */
  lemma ExecuteDisableIsLost(m: Words, oldRoot: nat, n: Words, root: nat, a: nat)
    requires Preserves(m, oldRoot, n, root) && DIRECT_BASE48 + DIRECT_MAP_SIZE <= a < ADDRESS_LIMIT
    requires OrdinaryReferences(m, oldRoot) && Decode(InFrame(m, oldRoot, Page(a, 4))).Entry?
    requires Decode(InFrame(m, oldRoot, Page(a, 4))).noExecute
    requires RightsBelow(Decoded(m), oldRoot, a).write && RightsBelow(Decoded(m), oldRoot, a).execute
    ensures !WriteAndExecute(Decoded(m), oldRoot, 4, a) && WriteAndExecute(Decoded(n), root, 4, a)
  {
    hide Walk, WalkFrom, RightsBelow, Decode;
    RightsKeptExactly(m, oldRoot, n, root, a);
    PageNumbers(a);
    SlotDecodes(m, oldRoot, Page(a, 4));
  }

  /**
   * reconstruct. Running out of pages is its only panic; only frames that were
   * free are written; the new CR3 value leads to tables that preserve the boot
   * tables' translations above the direct map.
   */
  method ReconstructMapping(pa: Allocator, mem: PhysicalMemory, cr3: nat)
    returns (ok: bool, newCr3: nat, ghost frames: set<nat>)
    requires pa.Valid() && cr3 % PAGE_SIZE == 0
    requires TablesProtected(mem.words, cr3 / PAGE_SIZE, pa.used, pa.frameEnd)
    requires OrdinaryReferences(mem.words, cr3 / PAGE_SIZE)
    modifies pa`used, pa`live, pa.bitmap, mem
    ensures pa.Valid()
    ensures Fresh(old(pa.used), old(mem.words), pa.used, mem.words, frames, pa.frameEnd)
    ensures BootClonesKept(old(mem.words), cr3 / PAGE_SIZE, old(pa.used), pa.frameEnd) ==>
              AfterPages(old(pa.used), pa.frameEnd, HostTableCount(old(mem.words), cr3 / PAGE_SIZE))
              == if ok then Some(pa.used) else None
    ensures ok ==> newCr3 % PAGE_SIZE == 0 && newCr3 / PAGE_SIZE in frames
    ensures ok ==> Preserves(old(mem.words), cr3 / PAGE_SIZE, mem.words, newCr3 / PAGE_SIZE)
    ensures ok ==> HostTablesKept(mem.words, newCr3 / PAGE_SIZE, pa.used, pa.frameEnd)
  {
    hide Allocator.Valid, TablesProtected, Visits, OrdinaryReferences, Preserves, Rebuilt, HostTablesKept,
         BootClonesKept, AfterPages, SlotsUpTo;
    ghost var m0, u0 := mem.words, pa.used;
    var oldRoot := cr3 / PAGE_SIZE;
    var root;
    ghost var direct;
    newCr3 := 0;
    ok, root, direct, frames := BuildDirectMap(pa, mem, oldRoot);
    ghost var u1 := pa.used;
    PagesCompose(u0, pa.frameEnd, 2, SlotsUpTo(m0, oldRoot, 512));
    if !ok {
      return;
    }
    ghost var clones;
    ok, clones, frames := CloneKernelSlots(pa, mem, oldRoot, root, direct, m0, u0, {root, direct});
    if ok {
      RebuiltPreserves(m0, mem.words, oldRoot, root, direct, clones, u0, pa.frameEnd, frames);
      newCr3 := root * PAGE_SIZE;
    }
  }

  /** The first half of reconstruct: a root whose only entry is the direct map. */
  method BuildDirectMap(pa: Allocator, mem: PhysicalMemory, ghost oldRoot: nat)
    returns (ok: bool, root: nat, ghost direct: nat, ghost frames: set<nat>)
    requires pa.Valid()
    modifies pa`used, pa`live, pa.bitmap, mem
    ensures pa.Valid()
    ensures Fresh(old(pa.used), old(mem.words), pa.used, mem.words, frames, pa.frameEnd)
    ensures AfterPages(old(pa.used), pa.frameEnd, 2) == if ok then Some(pa.used) else None
    ensures ok ==> frames == {root, direct} && Disjoint(root, direct, map[], {root, direct})
    ensures ok ==> Rebuilt(old(mem.words), mem.words, oldRoot, root, direct, map[], KERNEL_SLOTS)
  {
    hide Allocator.Valid, Rebuilt, Decode, IsDirect, AfterPages, Search;
    ghost var m0, u0 := mem.words, pa.used;
    direct, frames := 0, {};
    PagesCompose(u0, pa.frameEnd, 1, 1);
    ok, root := AllocateTable(pa, mem, false);
    if !ok {
      return;
    }
    frames := {root};
    ghost var m1 := mem.words;
    var lv3tbl;
    ok, lv3tbl := AllocateTable(pa, mem, false);
    if !ok {
      return;
    }
    direct, frames := lv3tbl, {root, lv3tbl};
    ghost var m2 := mem.words;
    FillDirectMap(mem, lv3tbl);
    ghost var m3 := mem.words;
    RootStillEmpty(m1, m2, m3, root, lv3tbl);
    var e := InitTableReference(InFrame(mem.words, root, DIRECT_SLOT), lv3tbl * PAGE_SIZE, false);
    mem.Store(512 * root + DIRECT_SLOT, e);
    assert (512 * root + DIRECT_SLOT) / 512 == root;
    DirectMapBuilt(m0, m1, m2, m3, mem.words, oldRoot, root, direct, e);
  }

  lemma RootStillEmpty(m1: Words, m2: Words, m3: Words, root: nat, direct: nat)
    requires root != direct && (forall i | 0 <= i < 512 :: InFrame(m1, root, i) == Zero())
    requires OnlyFrames(m1, m2, {direct}) && OnlyFrames(m2, m3, {direct})
    ensures forall i | 0 <= i < 512 :: InFrame(m3, root, i) == Zero()
  {
    FramesKept(m1, m2, {direct});
    FramesKept(m2, m3, {direct});
    assert SameFrame(m1, m2, root) && SameFrame(m2, m3, root);
    forall i | 0 <= i < 512
      ensures InFrame(m3, root, i) == Zero()
    {
      assert InFrame(m2, root, i) == InFrame(m1, root, i);
    }
  }

  lemma DirectMapBuilt(
      m0: Words, m1: Words, m2: Words, m3: Words, m4: Words, oldRoot: nat, root: nat, direct: nat, e: Word)
    requires root != direct && (forall i | 0 <= i < 512 :: InFrame(m1, root, i) == Zero())
    requires OnlyFrames(m1, m2, {direct}) && OnlyFrames(m2, m3, {direct})
    requires forall i | 0 <= i < 512 :: IsDirect(Decode(InFrame(m3, direct, i)), i)
    requires m4 == m3[512 * root + DIRECT_SLOT := e] && OpenReference(Decode(e), direct)
    ensures Rebuilt(m0, m4, oldRoot, root, direct, map[], KERNEL_SLOTS)
  {
    RootStillEmpty(m1, m2, m3, root, direct);
    forall i | 0 <= i < 512 && i != DIRECT_SLOT
      ensures InFrame(m4, root, i) == Zero()
    {
      assert InFrame(m4, root, i) == InFrame(m3, root, i);
    }
    forall i | 0 <= i < 512
      ensures InFrame(m4, direct, i) == InFrame(m3, direct, i)
    {
    }
  }

  /**
   * The comment above the clones in the source calls them recursive; they are
   * not. The new tables read none of the boot tables for an address exactly when
   * the boot tables resolve that address at level 3 or above.
   */
  lemma CloneIsShallow(m: Words, n: Words, lv3: nat, clone: nat, a: nat)
    requires Copied(m, lv3, n, clone) && clone !in Visits(Decoded(m), lv3, 3, a)
    requires forall f | f in Visits(Decoded(m), lv3, 3, a) :: SameFrame(m, n, f)
    ensures Visits(Decoded(n), clone, 3, a) !! Visits(Decoded(m), lv3, 3, a)
            <==> (Slot(Decoded(m), lv3, Page(a, 3) % 512).Absent? || Slot(Decoded(m), lv3, Page(a, 3) % 512).large)
  {
    var i := Page(a, 3) % 512;
    SlotDecodes(m, lv3, i);
    SlotDecodes(n, clone, i);
    assert InFrame(n, clone, i) == InFrame(m, lv3, i);
    SharedBelow(m, n, lv3, clone, a);
  }
}
