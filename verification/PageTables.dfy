/**
 * Four-level page tables as an abstract map. The translation follows the AMD64
 * Architecture Programmer's Manual, Volume 2, section 5.3 (long-mode page
 * translation), which section 15.25 reuses for nested paging: physical
 * addresses sit in bits 51:12 of an entry, a set PS bit ends the walk at level 2
 * or 3, and is reserved at level 4.
 */
module PageTables {
  import opened Bits
  import opened Memory
  import opened Wrappers

  /** How a table builder ends; the two failures stop the machine. */
  datatype Outcome = Done | OutOfMemory | AlreadyMapped

  // ---------------------------------------------------------------- entries

  const ENTRY_PRESENT := 0
  const ENTRY_RW := 1
  const ENTRY_US := 2
  const ENTRY_PS := 7
  const ENTRY_PHYS := 12
  const ENTRY_XD := 63
  /** Frame numbers that fit bits 51:12. */
  const FRAME_LIMIT: nat := 0x100_0000_0000

  /** What the processor reads from an entry. */
  datatype Pte = Absent | Entry(large: bool, writable: bool, noExecute: bool, user: bool, frame: nat)

  function Decode(e: Word): Pte {
    if !e[ENTRY_PRESENT] then Absent
    else Entry(e[ENTRY_PS], e[ENTRY_RW], e[ENTRY_XD], e[ENTRY_US], Value(e[ENTRY_PHYS..52]))
  }

  /** The frame the code takes out of an entry: its PHYS_MASK covers bits 62:12. */
  function CodeFrame(e: Word): nat {
    Value(e[ENTRY_PHYS..63])
  }

  /** The entry format of the AMD64 manual, by bit numbers. */
  lemma EntryFormat(e: Word)
    ensures Decode(e) == if e[0] then Entry(e[7], e[1], e[63], e[2], Value(e[12..52])) else Absent
  {
  }

  /** Memory as the page walker sees it: one decoded entry per word. */
  type View = map<nat, Pte>

  function Decoded(m: Words): View {
    map k | k in m :: Decode(m[k])
  }

  function Slot(v: View, table: nat, i: nat): Pte {
    if 512 * table + i in v then v[512 * table + i] else Absent
  }

  lemma SlotDecodes(m: Words, table: nat, i: nat)
    ensures Slot(Decoded(m), table, i) == Decode(InFrame(m, table, i))
  {
  }

  lemma StoreIsOneSlot(m: Words, table: nat, i: nat, w: Word)
    requires i < 512
    ensures OneSlot(Decoded(m), Decoded(m[512 * table + i := w]), table, i)
    ensures Slot(Decoded(m[512 * table + i := w]), table, i) == Decode(w)
  {
  }

  lemma SameFrameSameSlots(m: Words, n: Words, f: nat)
    requires SameFrame(m, n, f)
    ensures SameSlots(Decoded(m), Decoded(n), f)
  {
    forall i | 0 <= i < 512
      ensures Slot(Decoded(n), f, i) == Slot(Decoded(m), f, i)
    {
      assert InFrame(n, f, i) == InFrame(m, f, i);
    }
  }

  // ---------------------------------------------------------------- writing entries

  /** 0 or 1 as set_masked_bits receives it. */
  function Flag(b: bool): Word {
    ToWord(if b then 1 else 0)
  }

  function WithFlag(e: Word, n: nat, b: bool): Word
    requires n < 64
  {
    StoredBit(e, Flag(b), n);
    SetMaskedBits(e, Flag(b), ToBit(n))
  }

  /** PHYS_MASK: bits 12 to 62. */
  function PhysMask(): Word {
    FieldMask(ENTRY_PHYS, 63)
  }

  function WithFrame(e: Word, phys: nat): Word {
    StoredField(e, ToWord(phys / PAGE_SIZE), ENTRY_PHYS, 63);
    SetMaskedBits(e, ToWord(phys / PAGE_SIZE), PhysMask())
  }

  /** The code's wide frame mask and the processor's agree on the entry. */
  ghost predicate Plain(e: Word) {
    CodeFrame(e) == Value(e[ENTRY_PHYS..52])
  }

  lemma FlagWritten(e: Word, n: nat, b: bool)
    requires n < 64
    ensures WithFlag(e, n, b) == e[n := b]
  {
    hide SetMaskedBits, ToBit, Flag;
    StoredBit(e, Flag(b), n);
    FlagBit(b);
  }

  lemma FlagBit(b: bool)
    ensures Flag(b)[0] == b
  {
    hide BitsOf;
    FirstBit(if b then 1 else 0, 64);
  }

  lemma FrameWritten(e: Word, phys: nat)
    requires phys < FRAME_LIMIT * PAGE_SIZE
    ensures var r := WithFrame(e, phys);
            && r[..ENTRY_PHYS] == e[..ENTRY_PHYS] && r[63] == e[63]
            && Value(r[ENTRY_PHYS..52]) == phys / PAGE_SIZE && Plain(r)
  {
    var w := ToWord(phys / PAGE_SIZE);
    StoredField(e, w, ENTRY_PHYS, 63);
    var r := WithFrame(e, phys);
    assert r[ENTRY_PHYS..52] == w[..40];
    assert r[ENTRY_PHYS..63] == w[..51];
    FieldRoundTrip(phys / PAGE_SIZE);
    WideFieldRoundTrip(phys / PAGE_SIZE);
  }

  lemma FlagsSurvive(e: Word, phys: nat)
    requires phys < FRAME_LIMIT * PAGE_SIZE && e[ENTRY_PRESENT]
    ensures Decode(WithFrame(e, phys)) == Entry(e[ENTRY_PS], e[ENTRY_RW], e[ENTRY_XD], e[ENTRY_US], phys / PAGE_SIZE)
    ensures Plain(WithFrame(e, phys)) && OthersKept(e, WithFrame(e, phys))
  {
    FrameWritten(e, phys);
    var r := WithFrame(e, phys);
    forall i | 0 <= i < ENTRY_PHYS
      ensures r[i] == e[i]
    {
      assert r[i] == r[..ENTRY_PHYS][i] == e[..ENTRY_PHYS][i];
    }
  }

  /** The bits set_masked_bits is not asked to touch keep their value. */
  ghost predicate OthersKept(e: Word, r: Word) {
    r[3..7] == e[3..7] && r[8..ENTRY_PHYS] == e[8..ENTRY_PHYS] && r[ENTRY_XD] == e[ENTRY_XD]
  }

  /** The sequence of set_masked_bits calls that both entry initialisers make. */
  method InitEntry(e: Word, phys: nat, user: bool, large: bool) returns (r: Word)
    requires phys < FRAME_LIMIT * PAGE_SIZE
    ensures Decode(r) == Entry(large, true, e[ENTRY_XD], user, phys / PAGE_SIZE)
    ensures Plain(r) && OthersKept(e, r)
  {
    hide WithFlag, WithFrame;
    FlagWritten(e, ENTRY_PRESENT, true);
    var e1 := WithFlag(e, ENTRY_PRESENT, true);
    FlagWritten(e1, ENTRY_RW, true);
    var e2 := WithFlag(e1, ENTRY_RW, true);
    FlagWritten(e2, ENTRY_US, user);
    var e3 := WithFlag(e2, ENTRY_US, user);
    FlagWritten(e3, ENTRY_PS, large);
    var e4 := WithFlag(e3, ENTRY_PS, large);
    FlagsSurvive(e4, phys);
    r := WithFrame(e4, phys);
  }

  /** initialize_table_reference_entry; the nested tables set US, the kernel's own clear it. */
  method InitTableReference(e: Word, phys: nat, user: bool) returns (r: Word)
    requires phys < FRAME_LIMIT * PAGE_SIZE
    ensures Decode(r) == Entry(false, true, e[ENTRY_XD], user, phys / PAGE_SIZE)
    ensures Plain(r) && OthersKept(e, r)
  {
    r := InitEntry(e, phys, user, false);
  }

  /** initialize_page_reference_entry, for large pages. */
  method InitPageReference(e: Word, phys: nat, user: bool) returns (r: Word)
    requires phys < FRAME_LIMIT * PAGE_SIZE
    ensures Decode(r) == Entry(true, true, e[ENTRY_XD], user, phys / PAGE_SIZE)
    ensures Plain(r) && OthersKept(e, r)
  {
    r := InitEntry(e, phys, user, true);
  }

  // ---------------------------------------------------------------- addresses

  /** The number of the level-l page an address lies in. */
  function Page(a: nat, l: nat): nat
    requires l >= 1
  {
    if l == 1 then a / 4096 else Page(a, l - 1) / 512
  }

  const ADDRESS_LIMIT: nat := 0x1_0000_0000_0000

  lemma PageNumbers(a: nat)
    ensures Page(a, 2) == a / 0x20_0000
    ensures Page(a, 3) == a / 0x4000_0000
    ensures Page(a, 4) == a / 0x80_0000_0000
    ensures Page(a, 5) == a / ADDRESS_LIMIT
  {
    assert Page(a, 2) == Page(a, 1) / 512;
    assert Page(a, 3) == Page(a, 2) / 512;
    assert Page(a, 4) == Page(a, 3) / 512;
    assert Page(a, 5) == Page(a, 4) / 512;
  }

  function LeafAddress(frame: nat, l: nat, a: nat): nat {
    if l == 1 then frame * 4096 + a % 4096
    else if l == 2 then frame / 512 * 0x20_0000 + a % 0x20_0000
    else frame / 0x4_0000 * 0x4000_0000 + a % 0x4000_0000
  }

  // ---------------------------------------------------------------- the walk

  datatype Translation = Fault | Mapped(phys: nat, leaf: Pte)

  function WalkFrom(v: View, table: nat, l: nat, a: nat): Translation
    requires 1 <= l <= 4
    decreases l
  {
    match Slot(v, table, Page(a, l) % 512)
    case Absent => Fault
    case Entry(large, w, x, u, frame) =>
      var e := Entry(large, w, x, u, frame);
      if l == 1 then Mapped(LeafAddress(frame, 1, a), e)
      else if !large then WalkFrom(v, frame, l - 1, a)
      else if l == 4 then Fault
      else Mapped(LeafAddress(frame, l, a), e)
  }

  /** The translation of an address, given by its 48 translated bits. */
  function Walk(v: View, root: nat, a: nat): Translation {
    WalkFrom(v, root, 4, a)
  }

  // ---------------------------------------------------------------- effective rights

  datatype Rights = Rights(write: bool, execute: bool, user: bool)

  /** Rights accumulate over the walk: each level can only take some away. */
  function RightsFrom(v: View, table: nat, l: nat, a: nat): Rights
    requires 1 <= l <= 4
    decreases l
  {
    match Slot(v, table, Page(a, l) % 512)
    case Absent => Rights(false, false, false)
    case Entry(large, w, x, u, frame) =>
      if l == 1 || large then Rights(w, !x, u)
      else Restricted(RightsFrom(v, frame, l - 1, a), w, x, u)
  }

  function Restricted(r: Rights, writable: bool, noExecute: bool, user: bool): Rights {
    Rights(writable && r.write, !noExecute && r.execute, user && r.user)
  }

  predicate WriteAndExecute(v: View, table: nat, l: nat, a: nat)
    requires 1 <= l <= 4
  {
    RightsFrom(v, table, l, a).write && RightsFrom(v, table, l, a).execute
  }

  predicate LeafAllowsBoth(leaf: Pte) {
    leaf.Entry? && leaf.writable && !leaf.noExecute
  }

  /** No address has a right that its leaf denies. */
  lemma {:induction false} LeafBoundsRights(v: View, t: nat, l: nat, a: nat)
    requires 1 <= l <= 4 && WalkFrom(v, t, l, a).Mapped? && WalkFrom(v, t, l, a).leaf.Entry?
    ensures var leaf, r := WalkFrom(v, t, l, a).leaf, RightsFrom(v, t, l, a);
            (r.write ==> leaf.writable) && (r.execute ==> !leaf.noExecute) && (r.user ==> leaf.user)
    decreases l
  {
    match Slot(v, t, Page(a, l) % 512) {
      case Absent =>
      case Entry(large, _, _, _, frame) =>
        if l > 1 && !large {
          LeafBoundsRights(v, frame, l - 1, a);
        }
    }
  }

  /** A leaf that is not writable-and-executable makes the page not so, whatever the tables above say. */
  lemma {:induction false} LeafDecidesRights(v: View, t: nat, l: nat, a: nat)
    requires 1 <= l <= 4
    requires WalkFrom(v, t, l, a).Mapped? && !LeafAllowsBoth(WalkFrom(v, t, l, a).leaf)
    ensures !WriteAndExecute(v, t, l, a)
    decreases l
  {
    match Slot(v, t, Page(a, l) % 512) {
      case Absent =>
      case Entry(large, _, _, _, frame) =>
        if l > 1 && !large {
          LeafDecidesRights(v, frame, l - 1, a);
        }
    }
  }

  // ---------------------------------------------------------------- tables of a tree

  /** The level-l table that serves the addresses whose level-(l+1) page number is p. */
  function Table(v: View, root: nat, l: nat, p: nat): Option<nat>
    requires 1 <= l <= 4
    decreases 4 - l
  {
    if l == 4 then
      if p == 0 then Some(root) else None
    else
      match Table(v, root, l + 1, p / 512)
      case None => None
      case Some(t) =>
        match Slot(v, t, p % 512)
        case Absent => None
        case Entry(large, _, _, _, frame) => if large then None else Some(frame)
  }

  /** No table is reached along two different paths. */
  ghost predicate Tree(v: View, root: nat) {
    forall l, p, k, q {:trigger Table(v, root, l, p), Table(v, root, k, q)} ::
      1 <= l <= 4 && 1 <= k <= 4 && 0 <= p && 0 <= q
      && Table(v, root, l, p).Some? && Table(v, root, l, p) == Table(v, root, k, q)
      ==> l == k && p == q
  }

  /** Every table of the tree is one of the given frames. */
  ghost predicate TablesIn(v: View, root: nat, tables: set<nat>) {
    forall l, p {:trigger Table(v, root, l, p)} ::
      1 <= l <= 4 && 0 <= p && Table(v, root, l, p).Some? ==> Table(v, root, l, p).value in tables
  }

  ghost predicate SameSlots(v: View, v': View, f: nat) {
    forall i | 0 <= i < 512 :: Slot(v', f, i) == Slot(v, f, i)
  }

  /** v' is v but for one slot. */
  ghost predicate OneSlot(v: View, v': View, table: nat, i: nat) {
    forall f: nat, j: nat | j < 512 && !(f == table && j == i) :: Slot(v', f, j) == Slot(v, f, j)
  }

  // ---------------------------------------------------------------- whole tables

  /** The zeroing loop over the 512 entries. */
  method ClearTable(mem: PhysicalMemory, frame: nat)
    modifies mem
    ensures OnlyFrames(old(mem.words), mem.words, {frame})
    ensures forall i | 0 <= i < 512 :: InFrame(mem.words, frame, i) == Zero()
  {
    for i := 0 to 512
      invariant OnlyFrames(old(mem.words), mem.words, {frame})
      invariant forall j | 0 <= j < i :: InFrame(mem.words, frame, j) == Zero()
    {
      ghost var before := mem.words;
      assert (512 * frame + i) / 512 == frame;
      mem.Store(512 * frame + i, Zero());
      assert forall j | 0 <= j < i :: InFrame(mem.words, frame, j) == InFrame(before, frame, j);
    }
  }

  /** A frame of n holds what another frame of m held. */
  ghost predicate Copied(m: Words, src: nat, n: Words, dst: nat) {
    forall i | 0 <= i < 512 :: InFrame(n, dst, i) == InFrame(m, src, i)
  }

  /** memcpy of one page table. */
  method CopyTable(mem: PhysicalMemory, src: nat, dst: nat)
    modifies mem
    ensures OnlyFrames(old(mem.words), mem.words, {dst})
    ensures src != dst ==> Copied(old(mem.words), src, mem.words, dst)
  {
    ghost var before := mem.words;
    for i := 0 to 512
      invariant OnlyFrames(before, mem.words, {dst})
      invariant src != dst ==> forall j | 0 <= j < i :: InFrame(mem.words, dst, j) == InFrame(before, src, j)
    {
      ghost var m := mem.words;
      assert (512 * dst + i) / 512 == dst && (512 * src + i) / 512 == src;
      mem.Store(512 * dst + i, InFrame(mem.words, src, i));
      assert forall j | 0 <= j < i :: InFrame(mem.words, dst, j) == InFrame(m, dst, j);
    }
  }

  /** Both memories translate every address alike. */
  ghost predicate SameWalks(v: View, v': View, root: nat) {
    forall a: nat | a < ADDRESS_LIMIT :: Walk(v', root, a) == Walk(v, root, a)
  }

  lemma SameWalksCompose(v: View, v': View, v'': View, root: nat)
    requires SameWalks(v, v', root) && SameWalks(v', v'', root)
    ensures SameWalks(v, v'', root)
  {
  }

  lemma TableIsIn(m: Words, root: nat, tables: set<nat>, l: nat, q: nat, t: nat)
    requires TablesIn(Decoded(m), root, tables) && 1 <= l <= 4 && Table(Decoded(m), root, l, q / 512) == Some(t)
    ensures t in tables
  {
  }

  // ---------------------------------------------------------------- frame lemmas

  /** Changing frames that hold no table of the tree changes neither the tree nor the walk. */
  lemma {:induction false} TablesUnchanged(v: View, v': View, root: nat, tables: set<nat>, l: nat, p: nat)
    requires 1 <= l <= 4 && TablesIn(v, root, tables)
    requires forall f | f in tables :: SameSlots(v, v', f)
    ensures Table(v', root, l, p) == Table(v, root, l, p)
    decreases 4 - l
  {
    if l < 4 {
      TablesUnchanged(v, v', root, tables, l + 1, p / 512);
      match Table(v, root, l + 1, p / 512) {
        case None =>
        case Some(t) => assert SameSlots(v, v', t);
      }
    }
  }

  /** A walk step taken from a table of the tree: the next table is a table of the tree. */
  lemma {:induction false} WalkUnchanged(v: View, v': View, root: nat, tables: set<nat>, l: nat, t: nat, a: nat)
    requires 1 <= l <= 4 && TablesIn(v, root, tables)
    requires forall f | f in tables :: SameSlots(v, v', f)
    requires Table(v, root, l, Page(a, l + 1)) == Some(t)
    ensures WalkFrom(v', t, l, a) == WalkFrom(v, t, l, a) && RightsFrom(v', t, l, a) == RightsFrom(v, t, l, a)
    decreases l
  {
    assert SameSlots(v, v', t);
    match Slot(v, t, Page(a, l) % 512) {
      case Absent =>
      case Entry(large, _, _, _, frame) =>
        if l > 1 && !large {
          assert Table(v, root, l - 1, Page(a, l)) == Some(frame);
          WalkUnchanged(v, v', root, tables, l - 1, frame, a);
        }
    }
  }

  /** If none of the tables has changed, no translation has. */
  lemma WalksUnchanged(v: View, v': View, root: nat, tables: set<nat>)
    requires TablesIn(v, root, tables)
    requires forall f | f in tables :: SameSlots(v, v', f)
    ensures TablesIn(v', root, tables)
    ensures forall l, p {:trigger Table(v', root, l, p)} | 1 <= l <= 4 && 0 <= p ::
              Table(v', root, l, p) == Table(v, root, l, p)
    ensures forall a: nat | a < ADDRESS_LIMIT :: Walk(v', root, a) == Walk(v, root, a)
    ensures forall a: nat | a < ADDRESS_LIMIT :: RightsFrom(v', root, 4, a) == RightsFrom(v, root, 4, a)
  {
    forall l, p | 1 <= l <= 4 && 0 <= p
      ensures Table(v', root, l, p) == Table(v, root, l, p)
    {
      TablesUnchanged(v, v', root, tables, l, p);
    }
    forall a: nat | a < ADDRESS_LIMIT
      ensures Walk(v', root, a) == Walk(v, root, a) && RightsFrom(v', root, 4, a) == RightsFrom(v, root, 4, a)
    {
      PageNumbers(a);
      WalkUnchanged(v, v', root, tables, 4, root, a);
    }
  }

  lemma TreeUnchanged(v: View, v': View, root: nat, tables: set<nat>)
    requires TablesIn(v, root, tables) && Tree(v, root)
    requires forall f | f in tables :: SameSlots(v, v', f)
    ensures TablesIn(v', root, tables) && Tree(v', root)
    ensures forall l, p {:trigger Table(v', root, l, p)} | 1 <= l <= 4 && 0 <= p ::
              Table(v', root, l, p) == Table(v, root, l, p)
    ensures forall a: nat | a < ADDRESS_LIMIT :: Walk(v', root, a) == Walk(v, root, a)
  {
    hide Table, Walk, WalkFrom, SameSlots;
    WalksUnchanged(v, v', root, tables);
  }

  // ---------------------------------------------------------------- one slot changes

  /** The level-j table for p lies below slot q of level l. */
  ghost predicate Under(j: nat, p: nat, l: nat, q: nat)
    decreases l - j
  {
    j < l && (if j == l - 1 then p == q else Under(j + 1, p / 512, l, q))
  }

  /** Tables that do not hang below the changed slot stay where they are. */
  lemma {:induction false} TableElsewhere(v: View, v': View, root: nat, l: nat, q: nat, t: nat, j: nat, p: nat)
    requires 1 <= l <= 4 && 1 <= j <= 4 && Tree(v, root)
    requires Table(v, root, l, q / 512) == Some(t) && OneSlot(v, v', t, q % 512)
    requires !Under(j, p, l, q)
    ensures Table(v', root, j, p) == Table(v, root, j, p)
    decreases 4 - j
  {
    if j < 4 {
      TableElsewhere(v, v', root, l, q, t, j + 1, p / 512);
    }
  }

  /** An address outside the page of the changed slot translates as before. */
  lemma {:induction false} WalkElsewhere(
      v: View, v': View, root: nat, l: nat, q: nat, t: nat, j: nat, u: nat, a: nat)
    requires 1 <= l <= 4 && 1 <= j <= 4 && Tree(v, root)
    requires Table(v, root, l, q / 512) == Some(t) && OneSlot(v, v', t, q % 512)
    requires Table(v, root, j, Page(a, j + 1)) == Some(u) && Page(a, l) != q
    ensures WalkFrom(v', u, j, a) == WalkFrom(v, u, j, a)
    decreases j
  {
    assert Page(a, j + 1) == Page(a, j) / 512;
    assert u != t || Page(a, j) % 512 != q % 512;
    match Slot(v, u, Page(a, j) % 512) {
      case Absent =>
      case Entry(large, _, _, _, frame) =>
        if j > 1 && !large {
          assert Table(v, root, j - 1, Page(a, j)) == Some(frame);
          WalkElsewhere(v, v', root, l, q, t, j - 1, frame, a);
        }
    }
  }

  /** A walk that passes through a table of the tree continues from there. */
  lemma {:induction false} WalkPasses(v: View, root: nat, j: nat, t: nat, a: nat)
    requires 1 <= j <= 4 && a < ADDRESS_LIMIT
    requires Table(v, root, j, Page(a, j + 1)) == Some(t)
    ensures Walk(v, root, a) == WalkFrom(v, t, j, a)
    decreases 4 - j
  {
    PageNumbers(a);
    if j < 4 {
      assert Page(a, j + 2) == Page(a, j + 1) / 512;
      WalkPasses(v, root, j + 1, Table(v, root, j + 1, Page(a, j + 2)).value, a);
    }
  }

  // ---------------------------------------------------------------- installing entries

  /** The slot for page q of level l, in table t of the tree, is filled with `e`. */
  ghost predicate Fills(v: View, v': View, root: nat, l: nat, q: nat, t: nat, e: Pte)
    requires 1 <= l <= 4
  {
    && Table(v, root, l, q / 512) == Some(t)
    && OneSlot(v, v', t, q % 512)
    && Slot(v', t, q % 512) == e
  }

  predicate IsLeaf(e: Pte, l: nat) {
    e.Entry? && (l == 1 || e.large)
  }

  /** At page q's slot the walk arrives, before and after the change. */
  lemma WalkArrives(v: View, v': View, root: nat, l: nat, q: nat, t: nat, e: Pte, a: nat)
    requires 1 <= l <= 4 && Tree(v, root) && Fills(v, v', root, l, q, t, e)
    requires a < ADDRESS_LIMIT && Page(a, l) == q
    ensures Walk(v, root, a) == WalkFrom(v, t, l, a)
    ensures Walk(v', root, a) == WalkFrom(v', t, l, a)
  {
    assert Page(a, l + 1) == q / 512;
    WalkPasses(v, root, l, t, a);
    TableElsewhere(v, v', root, l, q, t, l, q / 512);
    WalkPasses(v', root, l, t, a);
  }

  /** A slot without a table keeps every table where it is when it gets, or changes, a leaf. */
  lemma {:induction false} TableWithLeaf(
      v: View, v': View, root: nat, l: nat, q: nat, t: nat, e: Pte, j: nat, p: nat)
    requires 1 <= l <= 3 && 1 <= j <= 4 && Tree(v, root) && Fills(v, v', root, l, q, t, e)
    requires IsLeaf(e, l) && (Slot(v, t, q % 512).Absent? || IsLeaf(Slot(v, t, q % 512), l))
    ensures Table(v', root, j, p) == Table(v, root, j, p)
    decreases 4 - j
  {
    if Under(j, p, l, q) {
      TableWithLeaf(v, v', root, l, q, t, e, j + 1, p / 512);
    } else {
      TableElsewhere(v, v', root, l, q, t, j, p);
    }
  }

  lemma WalkWithLeaf(v: View, v': View, root: nat, l: nat, q: nat, t: nat, e: Pte, a: nat)
    requires 1 <= l <= 3 && Tree(v, root) && Fills(v, v', root, l, q, t, e)
    requires IsLeaf(e, l) && a < ADDRESS_LIMIT
    ensures Walk(v', root, a) == if Page(a, l) == q then Mapped(LeafAddress(e.frame, l, a), e) else Walk(v, root, a)
  {
    if Page(a, l) == q {
      WalkArrives(v, v', root, l, q, t, e, a);
    } else {
      PageNumbers(a);
      WalkElsewhere(v, v', root, l, q, t, 4, root, a);
    }
  }

  /** Writing a leaf into an absent or leaf slot keeps the tables of the tree. */
  lemma LeafKeepsTables(v: View, v': View, root: nat, l: nat, q: nat, t: nat, e: Pte, tables: set<nat>)
    requires 1 <= l <= 3 && Tree(v, root) && TablesIn(v, root, tables) && Fills(v, v', root, l, q, t, e)
    requires IsLeaf(e, l) && (Slot(v, t, q % 512).Absent? || IsLeaf(Slot(v, t, q % 512), l))
    ensures Tree(v', root) && TablesIn(v', root, tables)
    ensures forall j, p {:trigger Table(v', root, j, p)} | 1 <= j <= 4 && 0 <= p ::
              Table(v', root, j, p) == Table(v, root, j, p)
  {
    forall j, p | 1 <= j <= 4 && 0 <= p
      ensures Table(v', root, j, p) == Table(v, root, j, p)
    {
      TableWithLeaf(v, v', root, l, q, t, e, j, p);
    }
  }

  /**
   * Writing a leaf into an absent or leaf slot is a point update: that page
   * translates by the new leaf, every other address as before.
   */
  lemma LeafIsPointUpdate(v: View, v': View, root: nat, l: nat, q: nat, t: nat, e: Pte)
    requires 1 <= l <= 3 && Tree(v, root) && Fills(v, v', root, l, q, t, e) && IsLeaf(e, l)
    ensures forall a: nat | a < ADDRESS_LIMIT ::
              Walk(v', root, a) == if Page(a, l) == q then
                                     Mapped(LeafAddress(e.frame, l, a), e)
                                   else Walk(v, root, a)
  {
    forall a: nat | a < ADDRESS_LIMIT
      ensures Walk(v', root, a) == if Page(a, l) == q then
                                     Mapped(LeafAddress(e.frame, l, a), e)
                                   else Walk(v, root, a)
    {
      WalkWithLeaf(v, v', root, l, q, t, e, a);
    }
  }

  /** Tables after an empty table g is hung into an absent slot: g, and all that were there. */
  lemma {:induction false} TableWithTable(
      v: View, v': View, root: nat, l: nat, q: nat, t: nat, e: Pte, j: nat, p: nat)
    requires 2 <= l <= 4 && 1 <= j <= 4 && Tree(v, root) && Fills(v, v', root, l, q, t, e)
    requires e.Entry? && !e.large && Slot(v, t, q % 512).Absent?
    requires forall i | 0 <= i < 512 :: Slot(v', e.frame, i).Absent?
    ensures Table(v', root, j, p) == if j == l - 1 && p == q then Some(e.frame) else Table(v, root, j, p)
    decreases 4 - j
  {
    if Under(j, p, l, q) {
      if j == l - 1 {
        TableElsewhere(v, v', root, l, q, t, l, q / 512);
      } else {
        TableWithTable(v, v', root, l, q, t, e, j + 1, p / 512);
        if j + 1 != l - 1 || p / 512 != q {
          UnderIsEmpty(v, root, l, q, t, j + 1, p / 512);
        } else {
          UnderIsEmpty(v, root, l, q, t, j + 1, q);
        }
      }
    } else {
      TableElsewhere(v, v', root, l, q, t, j, p);
    }
  }

  /** Nothing hangs below an absent slot. */
  lemma {:induction false} UnderIsEmpty(v: View, root: nat, l: nat, q: nat, t: nat, j: nat, p: nat)
    requires 1 <= j < l <= 4 && Under(j, p, l, q)
    requires Table(v, root, l, q / 512) == Some(t) && Slot(v, t, q % 512).Absent?
    ensures Table(v, root, j, p) == None
    decreases 4 - j
  {
    if j < l - 1 {
      UnderIsEmpty(v, root, l, q, t, j + 1, p / 512);
    }
  }

  lemma WalkWithTable(v: View, v': View, root: nat, l: nat, q: nat, t: nat, e: Pte, a: nat)
    requires 2 <= l <= 4 && Tree(v, root) && Fills(v, v', root, l, q, t, e)
    requires e.Entry? && !e.large && Slot(v, t, q % 512).Absent? && a < ADDRESS_LIMIT
    requires forall i | 0 <= i < 512 :: Slot(v', e.frame, i).Absent?
    ensures Walk(v', root, a) == Walk(v, root, a)
  {
    if Page(a, l) == q {
      WalkArrives(v, v', root, l, q, t, e, a);
      assert Slot(v', e.frame, Page(a, l - 1) % 512).Absent?;
    } else {
      PageNumbers(a);
      WalkElsewhere(v, v', root, l, q, t, 4, root, a);
    }
  }

  /** Hanging an empty table, not yet part of the tree, into an absent slot adds that one table. */
  lemma EmptyTableIsAdded(v: View, v': View, root: nat, l: nat, q: nat, t: nat, e: Pte, tables: set<nat>)
    requires 2 <= l <= 4 && Tree(v, root) && TablesIn(v, root, tables) && Fills(v, v', root, l, q, t, e)
    requires e.Entry? && !e.large && Slot(v, t, q % 512).Absent? && e.frame !in tables
    requires forall i | 0 <= i < 512 :: Slot(v', e.frame, i).Absent?
    ensures Tree(v', root) && TablesIn(v', root, tables + {e.frame})
    ensures forall j, p {:trigger Table(v', root, j, p)} | 1 <= j <= 4 && 0 <= p ::
              Table(v', root, j, p) == if j == l - 1 && p == q then Some(e.frame) else Table(v, root, j, p)
  {
    forall j, p | 1 <= j <= 4 && 0 <= p
      ensures Table(v', root, j, p) == if j == l - 1 && p == q then Some(e.frame) else Table(v, root, j, p)
    {
      TableWithTable(v, v', root, l, q, t, e, j, p);
    }
  }

  /** ... and changes no translation. */
  lemma EmptyTableIsInvisible(v: View, v': View, root: nat, l: nat, q: nat, t: nat, e: Pte)
    requires 2 <= l <= 4 && Tree(v, root) && Fills(v, v', root, l, q, t, e)
    requires e.Entry? && !e.large && Slot(v, t, q % 512).Absent?
    requires forall i | 0 <= i < 512 :: Slot(v', e.frame, i).Absent?
    ensures forall a: nat | a < ADDRESS_LIMIT :: Walk(v', root, a) == Walk(v, root, a)
  {
    forall a: nat | a < ADDRESS_LIMIT
      ensures Walk(v', root, a) == Walk(v, root, a)
    {
      WalkWithTable(v, v', root, l, q, t, e, a);
    }
  }
}
