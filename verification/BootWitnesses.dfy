/**
 * Boot states written out in full, on which the sequence of ymirc/main.c does
 * what one would not expect of it.
 */
module BootWitnesses {
  import opened Bits
  import opened Memory
  import opened PageAllocator
  import opened PageTables
  import opened Reconstruct
  import opened GuestMemory
  import opened Isolation
  import opened KernelMain
  import opened Wrappers

  // ---------------------------------------------------------------- boot tables, written out

  const BOOT_ROOT: nat := 8
  const BOOT_LV3: nat := 9
  /** The 48 translated bits of KERNEL_BASE, and their level-4 and level-3 slots. */
  const KERNEL_BASE48: nat := KERNEL_BASE % ADDRESS_LIMIT
  const KERNEL_LV4_SLOT: nat := 511
  const KERNEL_LV3_SLOT: nat := 510

  function Reference(frame: nat, large: bool, noExecute: bool): Word {
    var flags := Zero()[ENTRY_PRESENT := true][ENTRY_RW := true][ENTRY_PS := large][ENTRY_XD := noExecute];
    WithFrame(flags, frame * PAGE_SIZE)
  }

  /** A level-4 table with one entry, and below it a 1GiB page for the kernel's addresses. */
  function BootMemory(noExecute: bool): Words {
    map[512 * BOOT_ROOT + KERNEL_LV4_SLOT := Reference(BOOT_LV3, false, noExecute),
        512 * BOOT_LV3 + KERNEL_LV3_SLOT := Reference(0, true, false)]
  }

  lemma ReferenceIs(frame: nat, large: bool, noExecute: bool)
    requires frame < FRAME_LIMIT
    ensures var e := Reference(frame, large, noExecute);
            && Decode(e) == Entry(large, true, noExecute, false, frame) && Plain(e) && CodeFrame(e) == frame
            && e[ENTRY_PRESENT] && e[ENTRY_PS] == large
  {
    hide WithFrame;
    var flags := Zero()[ENTRY_PRESENT := true][ENTRY_RW := true][ENTRY_PS := large][ENTRY_XD := noExecute];
    FlagsSurvive(flags, frame * PAGE_SIZE);
    assert frame * PAGE_SIZE / PAGE_SIZE == frame;
  }

  lemma BootEntries(noExecute: bool)
    ensures var m := BootMemory(noExecute);
            && (forall j | 0 <= j < 512 :: InFrame(m, BOOT_ROOT, j) ==
                  if j == KERNEL_LV4_SLOT then Reference(BOOT_LV3, false, noExecute) else Zero())
            && (forall j | 0 <= j < 512 :: InFrame(m, BOOT_LV3, j) ==
                  if j == KERNEL_LV3_SLOT then Reference(0, true, false) else Zero())
  {
    hide Reference;
  }

  /** The two tables are all that any walk looks into. */
  lemma BootVisits(noExecute: bool, a: nat)
    requires a < ADDRESS_LIMIT
    ensures Visits(Decoded(BootMemory(noExecute)), BOOT_ROOT, 4, a) <= {BOOT_ROOT, BOOT_LV3}
  {
    hide BootMemory, Reference, Page, Decode;
    var m := BootMemory(noExecute);
    var v, i, j := Decoded(m), Page(a, 4) % 512, Page(a, 3) % 512;
    BootEntries(noExecute);
    ReferenceIs(BOOT_LV3, false, noExecute);
    ReferenceIs(0, true, false);
    ZeroIsAbsent();
    SlotDecodes(m, BOOT_ROOT, i);
    SlotDecodes(m, BOOT_LV3, j);
    assert Visits(v, BOOT_LV3, 3, a) == {BOOT_LV3};
  }

  lemma ZeroIsAbsent()
    ensures Decode(Zero()).Absent? && !Zero()[ENTRY_PRESENT]
  {
  }

  lemma BootIsOrdinary(noExecute: bool)
    ensures OrdinaryReferences(BootMemory(noExecute), BOOT_ROOT)
  {
    hide BootMemory, Reference, Plain;
    BootEntries(noExecute);
    ReferenceIs(BOOT_LV3, false, noExecute);
    ZeroIsAbsent();
  }

  /** Reconstruction takes three pages: the root, the direct map, and one clone, which follows no further table. */
  lemma BootClones(noExecute: bool, used: set<nat>, frameEnd: nat)
    requires frameEnd <= BOOT_LV3
    ensures BootClonesKept(BootMemory(noExecute), BOOT_ROOT, used, frameEnd)
    ensures HostTableCount(BootMemory(noExecute), BOOT_ROOT) == 3
  {
    hide BootMemory, Reference, Plain, CodeFrame, Decode;
    var m := BootMemory(noExecute);
    BootEntries(noExecute);
    ReferenceIs(BOOT_LV3, false, noExecute);
    ReferenceIs(0, true, false);
    ZeroIsAbsent();
    assert forall i | 0 <= i < 512 :: !Followed(InFrame(m, BOOT_LV3, i));
    NoneFollowed(m, BOOT_LV3, 3, 512);
    NoSlotsPresent(m, BOOT_ROOT, KERNEL_LV4_SLOT);
    assert SlotsUpTo(m, BOOT_ROOT, 512) == SlotsUpTo(m, BOOT_ROOT, 511) + SlotCount(m, BOOT_ROOT, 511);
  }

  lemma {:induction false} NoneFollowed(m: Words, table: nat, l: nat, i: nat)
    requires 2 <= l <= 3 && i <= 512 && forall j | 0 <= j < 512 :: !Followed(InFrame(m, table, j))
    ensures CountUpTo(m, table, l, i) == 0
  {
    if i > 0 {
      NoneFollowed(m, table, l, i - 1);
    }
  }

  lemma {:induction false} NoSlotsPresent(m: Words, root: nat, j: nat)
    requires forall i | KERNEL_SLOTS <= i < j :: !InFrame(m, root, i)[ENTRY_PRESENT]
    ensures SlotsUpTo(m, root, j) == 0
  {
    if j > KERNEL_SLOTS {
      NoSlotsPresent(m, root, j - 1);
    }
  }

  // ---------------------------------------------------------------- rights that widen

  /**
   * With execution disabled in the level-4 entry, the kernel's page is writable
   * and not executable under these boot tables, and writable and executable under
   * any tables reconstructed from them.
   */
  lemma KernelPageBecomesExecutable(n: Words, root: nat)
    requires Preserves(BootMemory(true), BOOT_ROOT, n, root)
    ensures RightsFrom(Decoded(BootMemory(true)), BOOT_ROOT, 4, KERNEL_BASE48) == Rights(true, false, false)
    ensures WriteAndExecute(Decoded(n), root, 4, KERNEL_BASE48)
  {
    hide BootMemory, Reference, Plain, Preserves, Decode;
    var m := BootMemory(true);
    BootEntries(true);
    BootIsOrdinary(true);
    ReferenceIs(BOOT_LV3, false, true);
    ReferenceIs(0, true, false);
    KernelSlots();
    SlotDecodes(m, BOOT_ROOT, KERNEL_LV4_SLOT);
    SlotDecodes(m, BOOT_LV3, KERNEL_LV3_SLOT);
    assert RightsFrom(Decoded(m), BOOT_LV3, 3, KERNEL_BASE48) == Rights(true, true, false);
    ExecuteDisableIsLost(m, BOOT_ROOT, n, root, KERNEL_BASE48);
  }

  lemma KernelSlots()
    ensures Page(KERNEL_BASE48, 4) == KERNEL_LV4_SLOT && Page(KERNEL_BASE48, 3) % 512 == KERNEL_LV3_SLOT
    ensures DIRECT_BASE48 + DIRECT_MAP_SIZE <= KERNEL_BASE48 < ADDRESS_LIMIT
  {
    PageNumbers(KERNEL_BASE48);
    DirectSlotIsRight();
  }

  // ---------------------------------------------------------------- the NULL map

  /** Seven usable frames, the first of them frame 0. */
  function SevenFrames(): seq<Descriptor> {
    [Descriptor(7, 0, 7)]
  }

  lemma SevenUsable(f: nat)
    ensures InUsable(SevenFrames(), f) <==> f < 7
  {
    assert SevenFrames()[0] == Descriptor(7, 0, 7);
    assert f < 7 ==> InDescriptor(SevenFrames()[0], f);
  }

  lemma SevenAreWellFormed(limit: nat)
    requires limit > 7 * PAGE_SIZE
    ensures WellFormedMap(SevenFrames()) && RegionsNeeded(SevenFrames(), 0, limit) == 0
  {
    assert RegionsNeeded(SevenFrames(), 1, limit) == 0;
  }

  lemma SevenAreManaged(used: set<nat>, frameEnd: nat, limit: nat)
    requires ManagedBy(SevenFrames(), used, frameEnd, limit) && limit > 7 * PAGE_SIZE
    ensures frameEnd == 7 && forall f: nat | f < 7 :: f !in used
  {
    hide InUsable;
    assert SevenFrames()[0] == Descriptor(7, 0, 7);
    forall f: nat
      ensures InUsable(SevenFrames(), f) <==> f < 7
    {
      SevenUsable(f);
    }
    assert EndOf(SevenFrames()[0]) == 7 * PAGE_SIZE;
  }

  /** The page tables take frames 1, 2 and 3. */
  lemma FirstThreePages(used: set<nat>)
    requires forall f: nat | f < 7 :: f !in used
    ensures AfterPages(used, 7, 3) == Some(used + {1} + {2} + {3})
  {
    hide Search;
    FirstPageIs(used, 1);
    FirstPageIs(used + {1}, 2);
    FirstPageIs(used + {1} + {2}, 3);
    assert AfterPages(used, 7, 0) == Some(used);
    assert AfterPages(used, 7, 1) == AfterPage(used, 7);
    assert AfterPages(used, 7, 2) == AfterPage(used + {1}, 7);
  }

  lemma FirstPageIs(used: set<nat>, f: nat)
    requires 1 <= f < 6 && f !in used && forall j | 1 <= j < f :: j in used
    ensures AfterPage(used, 7) == Some(used + {f})
  {
    hide Search;
    SearchIs(used, 7, 1, true);
    forall j: nat | 1 <= j < f
      ensures !Accepts(used, 7, 1, true, j)
    {
      assert j in used;
    }
    assert Accepts(used, 7, 1, true, f);
    assert FirstRun(used, 7, 1, true, f);
  }

  const SOME_GUEST: Guest := Guest(0x10_0000, 0x2000, 0x20_0000, 0x1000)

  lemma BootFramesKept()
    ensures BootKept(SevenFrames(), BootMemory(false), BOOT_ROOT, SOME_GUEST)
  {
    hide InUsable, BootMemory, Visits;
    SevenUsable(BOOT_ROOT);
    SevenUsable(BOOT_LV3);
    forall a: nat, f | DIRECT_BASE48 + DIRECT_MAP_SIZE <= a < ADDRESS_LIMIT
                       && f in Visits(Decoded(BootMemory(false)), BOOT_ROOT, 4, a)
      ensures !InUsable(SevenFrames(), f)
    {
      BootVisits(false, a);
    }
    forall a: nat | Inside(a, SOME_GUEST.kernel, ImageBytes(SOME_GUEST))
                    || Inside(a, SOME_GUEST.initrd, SOME_GUEST.initrdSize)
      ensures !InUsable(SevenFrames(), FrameOf(a))
    {
      SevenUsable(FrameOf(a));
    }
  }

  /**
   * A machine on which kernel_main reaches the NULL map: its seven usable frames
   * give three page tables, a save area and a VMCB, and no two pages for a map.
   */
  method TightMachine() returns (r: Boot)
    ensures r == Stopped(InitStopped(NullMap))
  {
    hide BootMemory, BootKept, OrdinaryReferences, BootClonesKept, HostTableCount, SevenFrames, WellFormedMap,
         RegionsNeeded, ManagedBy, BootVerdict, KernelVerdict, RawParams, Up, Preserves, Walk, InUsable;
    var pa := new Allocator(1);
    var mem := new PhysicalMemory(BootMemory(false));
    SevenAreWellFormed(pa.Limit());
    BootIsOrdinary(false);
    BootFramesKept();
    var newCr3, vm, bins;
    ghost var used0, used1, m1, tables;
    r, newCr3, vm, bins, used0, used1, m1, tables := Boots(pa, mem, SevenFrames(), BOOT_ROOT * PAGE_SIZE, SOME_GUEST);
    SevenAreManaged(used0, pa.frameEnd, pa.Limit());
    BootClones(false, used0, pa.frameEnd);
    TightVerdict(used0, KernelVerdict(RawParams(BootMemory(false), SOME_GUEST.kernel), SOME_GUEST));
  }

  lemma TightVerdict(used: set<nat>, load: Load)
    requires forall f: nat | f < 7 :: f !in used
    ensures BootVerdict(used, 7, 3, load) == Stopped(InitStopped(NullMap))
  {
    hide AfterPages, InitVerdict;
    FirstThreePages(used);
    ThreeFramesAreTooFew(used + {1} + {2} + {3});
  }
}
