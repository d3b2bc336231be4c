/**
 * The boot sequence of ymirc/main.c as a whole: the page allocator is set up
 * from the memory map, the kernel moves to its own page tables, and the guest is
 * prepared. Each step's demands are met by what the steps before it left.
 */
module KernelMain {
  import opened Bits
  import opened Memory
  import opened Bytes
  import opened PageAllocator
  import opened PageTables
  import opened Reconstruct
  import opened GuestMemory
  import opened Isolation
  import opened BootImage
  import opened BinAllocator
  import opened Arithmetic

  /** The memory map gives neither the boot tables of the kernel's addresses nor the guest's images away. */
  ghost predicate BootKept(descriptors: seq<Descriptor>, m: Words, root: nat, g: Guest) {
    && !InUsable(descriptors, root)
    && (forall a: nat, f |
          DIRECT_BASE48 + DIRECT_MAP_SIZE <= a < ADDRESS_LIMIT && f in Visits(Decoded(m), root, 4, a) ::
          !InUsable(descriptors, f))
    && (forall a: nat | Inside(a, g.kernel, ImageBytes(g)) || Inside(a, g.initrd, g.initrdSize) ::
          !InUsable(descriptors, FrameOf(a)))
  }

  /** Frames the map does not call usable are not handed out. */
  lemma UnusableIsNotFree(descriptors: seq<Descriptor>, used: set<nat>, frameEnd: nat, m: Words, root: nat, g: Guest)
    requires forall f: nat | f < frameEnd :: f in used <==> !InUsable(descriptors, f)
    requires BootKept(descriptors, m, root, g)
    ensures TablesProtected(m, root, used, frameEnd) && SourcesKept(used, frameEnd, g)
  {
    hide InUsable, Visits;
    forall a: nat | Inside(a, g.kernel, ImageBytes(g)) || Inside(a, g.initrd, g.initrdSize)
      ensures NotFree(FrameOf(a), used, frameEnd)
    {
    }
  }

  /** The sequence ends with the guest about to run, or at one of its panics. */
  datatype Boot = Running | MapTooLong | NoHostTables | Stopped(prepare: Prepare)

  /** The kernel and the guest, once the sequence has ended well. */
  ghost predicate Up(
      m0: Words, cr3: nat, used1: set<nat>, m1: Words, used: set<nat>, m: Words, frameEnd: nat,
      newCr3: nat, g: Guest, vm: Vm, tables: set<nat>)
  {
    && Preserves(m0, cr3 / PAGE_SIZE, m, newCr3 / PAGE_SIZE)
    && HostTablesKept(m, newCr3 / PAGE_SIZE, used1, frameEnd)
    && VmPrepared(used1, m1, used, m, frameEnd, g, vm, tables)
    && SeesExactly(m0, m, vm.nCr3 / PAGE_SIZE, g, vm.guestBase, vm.params)
  }

  /**
   * How kernel_main ends once the page allocator is set up, from the frames used
   * then, the pages reconstruction takes, and the verdict on the images.
   */
  ghost function BootVerdict(used: set<nat>, frameEnd: nat, hostTables: nat, load: Load): Boot {
    match AfterPages(used, frameEnd, hostTables)
    case None => NoHostTables
    case Some(used1) =>
      var prepare := PrepareVerdict(used1, frameEnd, load);
      if prepare == VmReady then Running else Stopped(prepare)
  }

  /** The copy of the kernel left guest memory: nothing is known of the machine any more. */
  predicate Overran(r: Boot) {
    r == Stopped(SetupStopped(NotLoaded(Overrun)))
  }

  /**
   * kernel_main. At the end the host translates as reconstruction promised, in
   * tables the guest cannot reach, and the guest sees the images the boot loader
   * left. Where it ends is decided by the memory map, the boot tables and the
   * images. If it stops after reconstruction the host's mapping still stands, and
   * if a permission map came back NULL, filling it faults at its first byte.
   */
  method Boots(pa: Allocator, mem: PhysicalMemory, descriptors: seq<Descriptor>, cr3: nat, g: Guest)
    returns (r: Boot, newCr3: nat, vm: Vm, bins: Bins?, ghost used0: set<nat>, ghost used1: set<nat>, ghost m1: Words,
             ghost tables: set<nat>)
    requires pa.Valid() && pa.used == {} && pa.live == {} && pa.reserved == [] && pa.frameEnd == 0
    requires pa.bitmap.Length > 0 && WellFormedMap(descriptors) && cr3 % PAGE_SIZE == 0 && g.kernelSize < WORD_LIMIT
    requires OrdinaryReferences(mem.words, cr3 / PAGE_SIZE) && BootKept(descriptors, mem.words, cr3 / PAGE_SIZE, g)
    modifies pa, pa.bitmap, mem
    ensures r == MapTooLong <==> RegionsNeeded(descriptors, 0, pa.Limit()) > 1024
    ensures r != MapTooLong ==> ManagedBy(descriptors, used0, pa.frameEnd, pa.Limit())
    ensures r != MapTooLong && BootClonesKept(old(mem.words), cr3 / PAGE_SIZE, used0, pa.frameEnd) ==>
              r == BootVerdict(used0, pa.frameEnd, HostTableCount(old(mem.words), cr3 / PAGE_SIZE),
                               KernelVerdict(RawParams(old(mem.words), g.kernel), g))
    ensures r == Running ==>
              && Up(old(mem.words), cr3, used1, m1, pa.used, mem.words, pa.frameEnd, newCr3, g, vm, tables)
              && bins != null && bins.pa == pa && bins.mem == mem && bins.Valid()
    ensures r.Stopped? && !Overran(r) ==> Preserves(old(mem.words), cr3 / PAGE_SIZE, mem.words, newCr3 / PAGE_SIZE)
    ensures r == Stopped(InitStopped(NullMap)) ==>
              forall a: nat | a < IOPM_PAGES * PAGE_SIZE :: Walk(Decoded(mem.words), newCr3 / PAGE_SIZE, a) == Fault
  {
    hide Allocator.Valid, TablesProtected, SourcesKept, OrdinaryReferences, BootKept, Preserves, HostTablesKept,
         VmPrepared, SeesExactly, Fresh, InUsable, Covered, RegionsNeeded, Walk, PrepareVerdict, KernelVerdict,
         RawParams, WellFormedMap, BootClonesKept, AfterPages, HostTableCount, Bins.Valid;
    ghost var m0 := mem.words;
    newCr3, vm, used0, used1, m1, tables := 0, Vm(Areas(0, 0, 0, 0), 0, 0, []), {}, {}, mem.words, {};
    bins := null;
    var panicked := pa.Init(descriptors);
    if panicked {
      r := MapTooLong;
      return;
    }
    UnusableIsNotFree(descriptors, pa.used, pa.frameEnd, m0, cr3 / PAGE_SIZE, g);
    used0 := pa.used;
    var ok;
    ghost var frames, written;
    ok, newCr3, frames := ReconstructMapping(pa, mem, cr3);
    if !ok {
      r := NoHostTables;
      return;
    }
    used1, m1 := pa.used, mem.words;
    bins := new Bins(pa, mem, true);
    SourcesStayKept(m0, m1, used0, used1, frames, pa.frameEnd, g);
    var prepare;
    prepare, vm, tables, written := PrepareVm(pa, mem, true, g);
    bins.UnusedIsValid();
    r := if prepare == VmReady then Running else Stopped(prepare);
    if !Overran(r) {
      PreservesSurvives(m0, cr3 / PAGE_SIZE, m1, mem.words, newCr3 / PAGE_SIZE, used1, pa.used, written, pa.frameEnd);
      NullIsUnmapped(m0, cr3 / PAGE_SIZE, mem.words, newCr3 / PAGE_SIZE);
    }
    if prepare == VmReady {
      SeenFromStart(m0, m1, mem.words, used0, used1, frames, pa.used, pa.frameEnd, g, vm, tables);
    }
  }

  /** What initialisation leaves: below frame_end the used frames are the unusable ones, and frame_end is tight. */
  ghost predicate ManagedBy(descriptors: seq<Descriptor>, used: set<nat>, frameEnd: nat, limit: nat) {
    && (forall f: nat | f < frameEnd :: f in used <==> !InUsable(descriptors, f))
    && (frameEnd == 0 || InUsable(descriptors, frameEnd - 1))
    && (forall i | 0 <= i < |descriptors| :: descriptors[i].kind in {3, 7} && EndOf(descriptors[i]) < limit ==>
          EndOf(descriptors[i]) <= frameEnd * PAGE_SIZE)
  }

  lemma NullIsUnmapped(m: Words, oldRoot: nat, n: Words, root: nat)
    requires Preserves(m, oldRoot, n, root)
    ensures forall a: nat | a < IOPM_PAGES * PAGE_SIZE :: Walk(Decoded(n), root, a) == Fault
  {
    hide Walk, RightsFrom;
    DirectSlotIsRight();
  }

  /** What the guest sees, in terms of the memory the boot loader left. */
  lemma SeenFromStart(
      m0: Words, m1: Words, m: Words, u0: set<nat>, u1: set<nat>, frames: set<nat>, used: set<nat>, end: nat,
      g: Guest, vm: Vm, tables: set<nat>)
    requires SourcesKept(u0, end, g) && Fresh(u0, m0, u1, m1, frames, end)
    requires VmPrepared(u1, m1, used, m, end, g, vm, tables) && KernelVerdict(RawParams(m1, g.kernel), g) == Loaded
    ensures SeesExactly(m0, m, vm.nCr3 / PAGE_SIZE, g, vm.guestBase, vm.params)
  {
    hide SourcesKept, Fresh, SeesExactly, KernelVerdict, RawParams, Frames, Unreachable, Confined, ByteAt, MapBit;
    SameSources(m0, m1, u0, u1, frames, end, g);
    SeenFromBefore(m0, m1, m, vm.nCr3 / PAGE_SIZE, u0, u1, frames, end, g, vm);
  }

  // ---------------------------------------------------------------- afterwards

  /** Whatever the guest stores, the host goes on translating as it did. */
  lemma GuestLeavesHostAlone(
      m0: Words, cr3: nat, used1: set<nat>, m1: Words, used: set<nat>, m: Words, frameEnd: nat,
      newCr3: nat, g: Guest, vm: Vm, tables: set<nat>, ws: seq<GuestStore>)
    requires Up(m0, cr3, used1, m1, used, m, frameEnd, newCr3, g, vm, tables)
    requires forall i | 0 <= i < |ws| :: ws[i].addr < ADDRESS_LIMIT
    ensures Preserves(m0, cr3 / PAGE_SIZE, AfterStores(m, vm.nCr3 / PAGE_SIZE, ws), newCr3 / PAGE_SIZE)
  {
    hide Preserves, HostTablesKept, SeesExactly, AfterStores, Frames, Unreachable, Confined, MapBit, OnlyFrames,
         AreasApart;
    var n, block := AfterStores(m, vm.nCr3 / PAGE_SIZE, ws), Frames(GuestBlock(vm));
    GuestCannotEscape(used1, m1, used, m, frameEnd, g, vm, tables, ws);
    assert Fresh(used1, m, used1 + block, n, block, frameEnd);
    PreservesSurvives(m0, cr3 / PAGE_SIZE, m, n, newCr3 / PAGE_SIZE, used1, used1 + block, block, frameEnd);
  }

  /** Every byte of the image lies above the direct map. */
  ghost predicate AboveDirectMap(phdrs: seq<Phdr>) {
    forall i, k: nat {:trigger PageOfByte(phdrs[i], k)} ::
      0 <= i < |phdrs| && phdrs[i].kind == 1 && k < phdrs[i].memsz ==>
        (phdrs[i].vaddr + k) % ADDRESS_LIMIT >= DIRECT_BASE48 + DIRECT_MAP_SIZE
  }

  /**
   * The kernel image the boot loader placed above the direct map stays placed:
   * each byte at its physical address in a leaf with the rights of its segment,
   * and no page writable and executable, although the new level-4 entries grant
   * everything.
   */
  lemma ImageSurvives(phdrs: seq<Phdr>, m: Words, oldRoot: nat, n: Words, root: nat)
    requires ImagePlaced(phdrs, Decoded(m), oldRoot) && Preserves(m, oldRoot, n, root) && AboveDirectMap(phdrs)
    ensures ImagePlaced(phdrs, Decoded(n), root)
  {
    hide Walk, RightsFrom, RightsBelow, LastOnPage;
    forall i, k: nat | 0 <= i < |phdrs| && phdrs[i].kind == 1 && k < phdrs[i].memsz
      ensures PlacedByte(phdrs, i, k, Decoded(n), root)
    {
      assert PageOfByte(phdrs[i], k) >= 0;
      assert PlacedByte(phdrs, i, k, Decoded(m), oldRoot);
      RightsAtRoot(Decoded(n), root, (phdrs[i].vaddr + k) % ADDRESS_LIMIT);
    }
  }

  /** And the rights of its segments stay the ones that count: text runs, data is written, and nothing more. */
  lemma ImageRightsSurvive(phdrs: seq<Phdr>, m: Words, oldRoot: nat, n: Words, root: nat)
    requires ImagePlaced(phdrs, Decoded(m), oldRoot) && ImageGranted(phdrs, Decoded(m), oldRoot)
    requires Preserves(m, oldRoot, n, root) && OrdinaryReferences(m, oldRoot) && AboveDirectMap(phdrs)
    ensures ImageGranted(phdrs, Decoded(n), root)
  {
    hide Walk, RightsFrom, RightsBelow, LastOnPage, Preserves, OrdinaryReferences;
    ImageSurvives(phdrs, m, oldRoot, n, root);
    forall i, k: nat | 0 <= i < |phdrs| && phdrs[i].kind == 1 && k < phdrs[i].memsz
      ensures GrantedByte(phdrs, i, k, Decoded(n), root)
    {
      assert PageOfByte(phdrs[i], k) >= 0;
      assert PlacedByte(phdrs, i, k, Decoded(m), oldRoot) && GrantedByte(phdrs, i, k, Decoded(m), oldRoot);
      assert PlacedByte(phdrs, i, k, Decoded(n), root);
      var a := (phdrs[i].vaddr + k) % ADDRESS_LIMIT;
      if LastOnPage(phdrs, i, a) {
        MappedBelowRoot(m, oldRoot, a);
        RightsKeptExactly(m, oldRoot, n, root, a);
        WalkIsWalkFrom(Decoded(n), root, a);
        LeafBoundsRights(Decoded(n), root, 4, a);
      }
    }
  }

  /** The pointers phys2virt makes after the switch lead, through the new tables, where virt2phys says they do. */
  lemma PointersTranslate(m: Words, oldRoot: nat, n: Words, root: nat, p: nat)
    requires Preserves(m, oldRoot, n, root) && p < 0x80_0000_0000
    ensures var ptr := Phys2Virt(true, p);
            && ptr == 0xFFFF_8880_0000_0000 + p && Virt2Phys(true, ptr) == p
            && Walk(Decoded(n), root, ptr % ADDRESS_LIMIT).Mapped?
            && Walk(Decoded(n), root, ptr % ADDRESS_LIMIT).phys == p
            && RightsFrom(Decoded(n), root, 4, ptr % ADDRESS_LIMIT) == Rights(true, true, false)
  {
    hide Walk, RightsFrom, RightsBelow, Phys2Virt, Virt2Phys;
    ConversionRoundTrip(true, true, p);
    DirectPointer(p);
  }

  lemma DirectPointer(p: nat)
    requires p < 0x80_0000_0000
    ensures Phys2Virt(true, p) == 0xFFFF_8880_0000_0000 + p
    ensures Phys2Virt(true, p) % ADDRESS_LIMIT == DIRECT_BASE48 + p < DIRECT_BASE48 + DIRECT_MAP_SIZE
  {
    ByAddresses(0xFFFF_8880_0000_0000 + p, 0xFFFF, 0x8880_0000_0000 + p);
  }

  /** And so do pointers into an image linked at the kernel's base. */
  lemma KernelPointersTranslate(phdrs: seq<Phdr>, n: Words, root: nat, i: nat, k: nat)
    requires ImagePlaced(phdrs, Decoded(n), root) && i < |phdrs| && phdrs[i].kind == 1 && k < phdrs[i].memsz
    requires phdrs[i].vaddr == 0xFFFF_FFFF_8000_0000 + phdrs[i].paddr && phdrs[i].vaddr + k < WORD_LIMIT
    ensures var ptr := phdrs[i].vaddr + k;
            && Walk(Decoded(n), root, ptr % ADDRESS_LIMIT).Mapped?
            && Walk(Decoded(n), root, ptr % ADDRESS_LIMIT).phys == Virt2Phys(true, ptr)
  {
    hide Walk, WriteAndExecute, LastOnPage;
    assert PlacedByte(phdrs, i, k, Decoded(n), root);
  }

  lemma WalkIsWalkFrom(v: View, root: nat, a: nat)
    requires a < ADDRESS_LIMIT
    ensures Walk(v, root, a) == WalkFrom(v, root, 4, a)
  {
  }

  lemma MappedBelowRoot(m: Words, root: nat, a: nat)
    requires a < ADDRESS_LIMIT && Walk(Decoded(m), root, a).Mapped?
    ensures Decode(InFrame(m, root, Page(a, 4))).Entry?
  {
    PageNumbers(a);
    SlotDecodes(m, root, Page(a, 4));
  }
}
