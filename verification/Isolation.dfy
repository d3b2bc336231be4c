/**
 * Setting up the virtual machine (ymirc/arch/x86/svm_vcpu.c, vm.c, main.c) and
 * what it guarantees afterwards: the control areas, their permission maps, and
 * the confinement of everything the guest writes.
 */
module Isolation {
  import opened Bits
  import opened Memory
  import opened Bytes
  import opened PageAllocator
  import opened TablePages
  import opened PageTables
  import opened NestedPaging
  import opened BootParameters
  import opened GuestMemory
  import opened Vmcb
  import SvmIoio
  import opened Wrappers

  // ---------------------------------------------------------------- permission maps

  /** Bit p of a map of bits at byte address `base`. */
  predicate MapBit(m: Words, base: nat, p: nat) {
    ByteAt(m, base + p / 8)[p % 8]
  }

  const IOPM_PAGES := 3
  const MSRPM_PAGES := 2
  const MAP_BITS_PER_PAGE := 8 * PAGE_SIZE

  /** The ports the guest may use without an exit: the interval timer and three serial registers. */
  predicate PassedThrough(p: nat) {
    0x40 <= p < 0x48 || p == 0x3F8 || p == 0x3FD || p == 0x3FE
  }

  /** unmask_iopm_bit. */
  method UnmaskIopmBit(mem: PhysicalMemory, base: nat, p: nat)
    modifies mem
    ensures OnlyBytes(old(mem.words), mem.words, base + p / 8, base + p / 8 + 1)
    ensures forall q: nat :: MapBit(mem.words, base, q) <==> MapBit(old(mem.words), base, q) && q != p
  {
    hide ByteAt;
    var index, pos := p / 8, p % 8;
    StoreByte(mem, base + index, ByteAt(mem.words, base + index)[pos := false]);
    forall q: nat
      ensures MapBit(mem.words, base, q) <==> MapBit(old(mem.words), base, q) && q != p
    {
      if q / 8 == index {
        assert q != p ==> q % 8 != pos;
      }
    }
  }

  /** The bits of setup_vmcb_ioio: everything intercepted but the listed ports. */
  ghost predicate IoMapReady(m: Words, base: nat) {
    forall p: nat | p < IOPM_PAGES * MAP_BITS_PER_PAGE :: MapBit(m, base, p) <==> !PassedThrough(p)
  }

  ghost predicate MsrMapReady(m: Words, base: nat) {
    forall p: nat | p < MSRPM_PAGES * MAP_BITS_PER_PAGE :: MapBit(m, base, p)
  }

  method FillMap(mem: PhysicalMemory, base: nat, pages: nat)
    modifies mem
    ensures OnlyBytes(old(mem.words), mem.words, base, base + pages * PAGE_SIZE)
    ensures forall p: nat | p < pages * MAP_BITS_PER_PAGE :: MapBit(mem.words, base, p)
  {
    hide ByteAt;
    var ones := seq(8, _ => true);
    Memset(mem, base, ones, pages * PAGE_SIZE);
    forall p: nat | p < pages * MAP_BITS_PER_PAGE
      ensures MapBit(mem.words, base, p)
    {
      assert ByteAt(mem.words, base + p / 8) == ones;
    }
  }

  method SetupIoMap(mem: PhysicalMemory, base: nat)
    modifies mem
    ensures OnlyBytes(old(mem.words), mem.words, base, base + IOPM_PAGES * PAGE_SIZE)
    ensures IoMapReady(mem.words, base)
  {
    hide ByteAt, MapBit;
    FillMap(mem, base, IOPM_PAGES);
    for i := 0x40 to 0x48
      invariant OnlyBytes(old(mem.words), mem.words, base, base + IOPM_PAGES * PAGE_SIZE)
      invariant forall p: nat | p < IOPM_PAGES * MAP_BITS_PER_PAGE :: MapBit(mem.words, base, p) <==> !(0x40 <= p < i)
    {
      UnmaskIopmBit(mem, base, i);
    }
    UnmaskIopmBit(mem, base, 0x3F8);
    UnmaskIopmBit(mem, base, 0x3FD);
    UnmaskIopmBit(mem, base, 0x3FE);
  }

  /**
   * The maps bit by bit. A port has no exit exactly if its input would be passed
   * through anyway and is not the interrupt identification register's, so nothing
   * that is emulated is ever bypassed; every MSR bit is set.
   */
  lemma MapsInFull(m: Words, iopm: nat, msrpm: nat)
    requires IoMapReady(m, iopm) && MsrMapReady(m, msrpm)
    ensures forall p: nat | p < 0x1_0000 ::
              !MapBit(m, iopm, p)
              <==> SvmIoio.InputOf(SvmIoio.IoInfo(true, true, false, false, p)) == SvmIoio.PassThrough && p != 0x3FA
    ensures forall p: nat | p < 0x1_0000 && (SvmIoio.IsPicPort(p) || p == 0x3F9 || p == 0x3FC) :: MapBit(m, iopm, p)
    ensures forall p: nat | 0x1_0000 <= p < 0x1_8000 :: MapBit(m, iopm, p)
    ensures forall p: nat | p < 0x1_0000 :: MapBit(m, msrpm, p)
  {
    hide MapBit;
  }

  // ---------------------------------------------------------------- vm_init

  /** The first frames of the host save area, the VMCB, the MSR map and the I/O map. */
  datatype Areas = Areas(hsave: nat, vmcb: nat, msrpm: nat, iopm: nat)

  ghost function AreaFrames(x: Areas): set<nat> {
    Frames(Region(x.hsave, 1)) + Frames(Region(x.vmcb, 1)) + Frames(Region(x.msrpm, MSRPM_PAGES))
        + Frames(Region(x.iopm, IOPM_PAGES))
  }

  ghost predicate AreasApart(x: Areas) {
    && Frames(Region(x.hsave, 1)) !! Frames(Region(x.vmcb, 1)) !! Frames(Region(x.msrpm, MSRPM_PAGES))
       !! Frames(Region(x.iopm, IOPM_PAGES))
  }

  /** The panics, and the NULL results of the map allocations that the source does not check. */
  datatype Init = Initialized | NoSaveArea | NoVmcb | NullMap

  /** How vm_init ends, from the state of the allocator alone. */
  ghost function InitVerdict(used: set<nat>, frameEnd: nat): Init {
    match Search(used, frameEnd, 1, false, 1)
    case None => NoSaveArea
    case Some(hsave) =>
      var used1 := used + Frames(Region(hsave, 1));
      match Search(used1, frameEnd, 1, true, 1)
      case None => NoVmcb
      case Some(vmcb) =>
        var used2 := used1 + Frames(Region(vmcb, 1));
        match Search(used2, frameEnd, MSRPM_PAGES, true, 1)
        case None => NullMap
        case Some(msrpm) =>
          if Search(used2 + Frames(Region(msrpm, MSRPM_PAGES)), frameEnd, IOPM_PAGES, true, 1) == None then NullMap
          else Initialized
  }

  /** The used frames after vm_init, when it succeeds. */
  ghost function AfterInit(used: set<nat>, frameEnd: nat): set<nat> {
    match Search(used, frameEnd, 1, false, 1)
    case None => used
    case Some(hsave) =>
      var used1 := used + Frames(Region(hsave, 1));
      match Search(used1, frameEnd, 1, true, 1)
      case None => used1
      case Some(vmcb) =>
        var used2 := used1 + Frames(Region(vmcb, 1));
        match Search(used2, frameEnd, MSRPM_PAGES, true, 1)
        case None => used2
        case Some(msrpm) =>
          var used3 := used2 + Frames(Region(msrpm, MSRPM_PAGES));
          match Search(used3, frameEnd, IOPM_PAGES, true, 1)
          case None => used3
          case Some(iopm) => used3 + Frames(Region(iopm, IOPM_PAGES))
  }

  /**
   * The unchecked NULL: vm_init goes on with a map at address 0 if and only if
   * the save area and the VMCB were found, and then no run of two pages is
   * accepted, or one is and after it none of three.
   */
  lemma NullMapExactly(used: set<nat>, frameEnd: nat)
    ensures InitVerdict(used, frameEnd) == NullMap <==>
              exists hsave: nat, vmcb: nat ::
                var used1 := used + Frames(Region(hsave, 1));
                var used2 := used1 + Frames(Region(vmcb, 1));
                && FirstRun(used, frameEnd, 1, false, hsave) && FirstRun(used1, frameEnd, 1, true, vmcb)
                && (NoRun(used2, frameEnd, MSRPM_PAGES, true)
                    || exists msrpm: nat ::
                         && FirstRun(used2, frameEnd, MSRPM_PAGES, true, msrpm)
                         && NoRun(used2 + Frames(Region(msrpm, MSRPM_PAGES)), frameEnd, IOPM_PAGES, true))
  {
    hide Search, FirstRun, NoRun, Frames;
    SearchIs(used, frameEnd, 1, false);
    forall used1
      ensures Search(used1, frameEnd, 1, true, 1) == None <==> NoRun(used1, frameEnd, 1, true)
      ensures forall s: nat :: FirstRun(used1, frameEnd, 1, true, s) <==> Search(used1, frameEnd, 1, true, 1) == Some(s)
    {
      SearchIs(used1, frameEnd, 1, true);
    }
    forall used2
      ensures Search(used2, frameEnd, 2, true, 1) == None <==> NoRun(used2, frameEnd, 2, true)
      ensures forall s: nat :: FirstRun(used2, frameEnd, 2, true, s) <==> Search(used2, frameEnd, 2, true, 1) == Some(s)
    {
      SearchIs(used2, frameEnd, 2, true);
    }
    forall used3
      ensures Search(used3, frameEnd, 3, true, 1) == None <==> NoRun(used3, frameEnd, 3, true)
    {
      SearchIs(used3, frameEnd, 3, true);
    }
  }

  /** A map in frames that are not written keeps its bits. */
  lemma MapKept(m: Words, n: Words, written: set<nat>, frame: nat, pages: nat)
    requires OnlyFrames(m, n, written) && Frames(Region(frame, pages)) !! written
    ensures forall p: nat | p < pages * MAP_BITS_PER_PAGE ::
              MapBit(n, frame * PAGE_SIZE, p) == MapBit(m, frame * PAGE_SIZE, p)
  {
    hide ByteAt, OnlyFrames;
    forall p: nat | p < pages * MAP_BITS_PER_PAGE
      ensures MapBit(n, frame * PAGE_SIZE, p) == MapBit(m, frame * PAGE_SIZE, p)
    {
      InFrames(Region(frame, pages), frame * PAGE_SIZE + p / 8);
      ByteOfKeptFrame(m, n, written, frame * PAGE_SIZE + p / 8);
    }
  }

  /** The frames of a run were free and are now used. */
  ghost predicate Taken(used: set<nat>, used': set<nat>, frameEnd: nat, block: Region) {
    && Frames(block) !! used && used' == used + Frames(block)
    && 1 <= block.frame && block.frame + block.numFrames <= frameEnd
  }

  /** The host save area: alloc(PAGE_SIZE). */
  method AllocateSaveArea(pa: Allocator, reconstructed: bool) returns (ok: bool, frame: nat)
    requires pa.Valid()
    modifies pa`used, pa`live, pa.bitmap
    ensures pa.Valid()
    ensures Search(old(pa.used), pa.frameEnd, 1, false, 1) == if ok then Some(frame) else None
    ensures !ok ==> pa.used == old(pa.used)
    ensures ok ==> Taken(old(pa.used), pa.used, pa.frameEnd, Region(frame, 1))
  {
    hide Search;
    var ptr;
    ghost var block;
    SearchIs(pa.used, pa.frameEnd, 1, false);
    assert NumFrames(PAGE_SIZE) == 1;
    ptr, block := pa.Alloc(PAGE_SIZE, reconstructed);
    ok, frame := ptr != 0, 0;
    if ok {
      ConversionRoundTrip(reconstructed, reconstructed, block.frame * PAGE_SIZE);
      frame := Virt2Phys(reconstructed, ptr) / PAGE_SIZE;
      assert block == Region(frame, 1);
      assert FirstRun(old(pa.used), pa.frameEnd, 1, false, frame);
    }
  }

  /** alloc_aligned_pages(n, PAGE_SIZE), as the other areas use it. */
  method AllocateRun(pa: Allocator, n: nat, reconstructed: bool) returns (ok: bool, frame: nat)
    requires pa.Valid() && 0 < n < 0x1_0000
    modifies pa`used, pa`live, pa.bitmap
    ensures pa.Valid()
    ensures Search(old(pa.used), pa.frameEnd, n, true, 1) == if ok then Some(frame) else None
    ensures !ok ==> pa.used == old(pa.used)
    ensures ok ==> Taken(old(pa.used), pa.used, pa.frameEnd, Region(frame, n))
  {
    hide Allocator.Valid, Search, Frames;
    SearchIs(pa.used, pa.frameEnd, n, true);
    ok, frame := AllocateBlock(pa, n, PAGE_SIZE, reconstructed);
    assert PAGE_SIZE / PAGE_SIZE == 1;
    if ok {
      EveryMultiple(old(pa.used), pa.frameEnd, n);
      LeastIsFirst(old(pa.used), pa.frameEnd, Region(frame, n));
    } else {
      EveryMultiple(pa.used, pa.frameEnd, n);
    }
  }

  /** What the allocation and the filling of one area amount to. */
  lemma AreaFilled(m: Words, n: Words, used: set<nat>, used': set<nat>, frameEnd: nat, frame: nat, pages: nat)
    requires Taken(used, used', frameEnd, Region(frame, pages))
    requires OnlyBytes(m, n, frame * PAGE_SIZE, frame * PAGE_SIZE + pages * PAGE_SIZE)
    ensures Fresh(used, m, used', n, Frames(Region(frame, pages)), frameEnd)
  {
    hide ByteAt, OnlyBytes, Frames, Fresh;
    BlockFilled(m, n, used, Region(frame, pages), frameEnd);
  }

  /**
   * vm_init: how it ends is decided by the allocator's state; when it succeeds
   * there are four areas in frames that were free, pairwise disjoint, the two maps
   * are filled, and the control block is in order and leads to them. NullMap is
   * where the source goes on with a map at address 0. However it ends, only frames
   * that were free have been written.
   */
  method VmInit(pa: Allocator, mem: PhysicalMemory, reconstructed: bool)
    returns (r: Init, x: Areas, ghost written: set<nat>)
    requires pa.Valid()
    modifies pa`used, pa`live, pa.bitmap, mem
    ensures pa.Valid()
    ensures r == InitVerdict(old(pa.used), pa.frameEnd) && pa.used == AfterInit(old(pa.used), pa.frameEnd)
    ensures Fresh(old(pa.used), old(mem.words), pa.used, mem.words, written, pa.frameEnd)
    ensures r == Initialized ==> AreasApart(x) && written == AreaFrames(x)
    ensures r == Initialized ==>
              MsrMapReady(mem.words, x.msrpm * PAGE_SIZE) && IoMapReady(mem.words, x.iopm * PAGE_SIZE)
    ensures r == Initialized ==>
              Controls(FrameWords(mem.words, x.vmcb), x.iopm * PAGE_SIZE, x.msrpm * PAGE_SIZE, 0)
  {
    hide ByteAt, MapBit, OnlyBytes, OnlyFrames, Fresh, Allocator.Valid, Frames, Search, Taken, FrameWords, Configured,
         WithMap, Controls;
    x, written := Areas(0, 0, 0, 0), {};
    ghost var m0, u0, end := mem.words, pa.used, pa.frameEnd;
    NothingFresh(u0, m0, end);
    var ok, hsave := AllocateSaveArea(pa, reconstructed);
    if !ok {
      return NoSaveArea, x, {};
    }
    ghost var u1 := pa.used;
    NothingStored(m0, hsave * PAGE_SIZE, hsave * PAGE_SIZE + PAGE_SIZE);
    written := AreaAdded(u0, m0, u0, m0, u1, m0, written, end, hsave, 1);
    var vmcb;
    ok, vmcb := AllocateRun(pa, 1, reconstructed);
    if !ok {
      return NoVmcb, x, written;
    }
    ClearVmcb(mem, vmcb);
    ghost var u2 := pa.used;
    written := AreaAdded(u0, m0, u1, m0, u2, mem.words, written, end, vmcb, 1);
    SingleFrame(vmcb);
    ghost var cleared := mem.words;
    ConfigureVmcb(mem, vmcb, 1, LINUX_LAYOUT_KERNEL_BASE);
    ghost var m2 := mem.words;
    WrittenAgain(u0, m0, u2, cleared, m2, written, end, vmcb);
    var msrpm;
    ok, msrpm := AllocateRun(pa, MSRPM_PAGES, reconstructed);
    if !ok {
      return NullMap, x, written;
    }
    FillMap(mem, msrpm * PAGE_SIZE, MSRPM_PAGES);
    ghost var m3, u3 := mem.words, pa.used;
    PointToMap(mem, vmcb, MSRPM_BASE_PA, msrpm * PAGE_SIZE, 28);
    ghost var m4 := mem.words;
    written := MapAdded(u0, m0, u2, m2, u3, m3, m4, written, end, msrpm, MSRPM_PAGES, vmcb);
    var iopm;
    ok, iopm := AllocateRun(pa, IOPM_PAGES, reconstructed);
    if !ok {
      return NullMap, x, written;
    }
    SetupIoMap(mem, iopm * PAGE_SIZE);
    ghost var m5 := mem.words;
    PointToMap(mem, vmcb, IOPM_BASE_PA, iopm * PAGE_SIZE, 27);
    written := MapAdded(u0, m0, u3, m4, pa.used, m5, mem.words, written, end, iopm, IOPM_PAGES, vmcb);
    r, x := Initialized, Areas(hsave, vmcb, msrpm, iopm);
    AreasTaken(m4, m5, mem.words, u0, u1, u2, u3, pa.used, end, x);
    Addressable(pa, u3, iopm, IOPM_PAGES);
    Addressable(pa, u2, msrpm, MSRPM_PAGES);
    ControlsReady(iopm * PAGE_SIZE, msrpm * PAGE_SIZE);
  }

  /** memset of the VMCB. */
  method ClearVmcb(mem: PhysicalMemory, f: nat)
    modifies mem
    ensures FrameWords(mem.words, f) == Blank()
    ensures OnlyBytes(old(mem.words), mem.words, f * PAGE_SIZE, f * PAGE_SIZE + 1 * PAGE_SIZE)
  {
    hide ByteAt, OctetOf, FrameWords, OnlyBytes;
    Memset(mem, f * PAGE_SIZE, OctetOf(0), PAGE_SIZE);
    ClearedWords(mem.words, f);
  }

  lemma Addressable(pa: Allocator, used: set<nat>, frame: nat, pages: nat)
    requires pa.Valid() && exists used' :: Taken(used, used', pa.frameEnd, Region(frame, pages))
    ensures frame * PAGE_SIZE < WORD_LIMIT
  {
  }

  /** A frame that was written before is written once more. */
  lemma WrittenAgain(
      u0: set<nat>, m0: Words, u: set<nat>, m: Words, n: Words, written: set<nat>, end: nat, f: nat)
    requires Fresh(u0, m0, u, m, written, end) && OnlyFrames(m, n, {f}) && f in written
    ensures Fresh(u0, m0, u, n, written, end)
  {
    hide At;
  }

  /** A map taken and filled, and its address stored in the control block. */
  lemma MapAdded(
      u0: set<nat>, m0: Words, u: set<nat>, m: Words, u': set<nat>, filled: Words, n: Words, written: set<nat>,
      end: nat, frame: nat, pages: nat, vmcb: nat)
    returns (written': set<nat>)
    requires Fresh(u0, m0, u, m, written, end) && Taken(u, u', end, Region(frame, pages)) && vmcb in written
    requires OnlyBytes(m, filled, frame * PAGE_SIZE, frame * PAGE_SIZE + pages * PAGE_SIZE)
    requires OnlyFrames(filled, n, {vmcb})
    ensures written' == written + Frames(Region(frame, pages)) && u' == u + Frames(Region(frame, pages))
    ensures Fresh(u0, m0, u', n, written', end)
    ensures FrameWords(filled, vmcb) == FrameWords(m, vmcb) && vmcb !in Frames(Region(frame, pages))
    ensures forall p: nat | p < pages * MAP_BITS_PER_PAGE ::
              MapBit(n, frame * PAGE_SIZE, p) == MapBit(filled, frame * PAGE_SIZE, p)
  {
    hide ByteAt, OnlyBytes, Frames, OnlyFrames, FrameWords, MapBit;
    written' := AreaAdded(u0, m0, u, m, u', filled, written, end, frame, pages);
    WrittenAgain(u0, m0, u', filled, n, written', end, vmcb);
    AreaFilled(m, filled, u, u', end, frame, pages);
    assert vmcb in u;
    WordsKept(m, filled, Frames(Region(frame, pages)), vmcb);
    MapKept(filled, n, {vmcb}, frame, pages);
  }

  /** One more area taken and filled. */
  lemma AreaAdded(
      u0: set<nat>, m0: Words, u: set<nat>, m: Words, u': set<nat>, n: Words, written: set<nat>, end: nat,
      frame: nat, pages: nat)
    returns (written': set<nat>)
    requires Fresh(u0, m0, u, m, written, end) && Taken(u, u', end, Region(frame, pages))
    requires OnlyBytes(m, n, frame * PAGE_SIZE, frame * PAGE_SIZE + pages * PAGE_SIZE)
    ensures written' == written + Frames(Region(frame, pages)) && u' == u + Frames(Region(frame, pages))
    ensures Fresh(u0, m0, u', n, written', end)
  {
    hide ByteAt, OnlyBytes, Frames, Fresh;
    AreaFilled(m, n, u, u', end, frame, pages);
    FreshCompose(u0, m0, u, m, u', n, written, Frames(Region(frame, pages)), end);
    written' := written + Frames(Region(frame, pages));
  }

  lemma AreasTaken(
      m4: Words, m5: Words, m6: Words, u0: set<nat>, u1: set<nat>, u2: set<nat>, u3: set<nat>, u4: set<nat>, end: nat,
      x: Areas)
    requires Taken(u0, u1, end, Region(x.hsave, 1)) && Taken(u1, u2, end, Region(x.vmcb, 1))
    requires Taken(u2, u3, end, Region(x.msrpm, MSRPM_PAGES)) && Taken(u3, u4, end, Region(x.iopm, IOPM_PAGES))
    requires OnlyBytes(m4, m5, x.iopm * PAGE_SIZE, x.iopm * PAGE_SIZE + IOPM_PAGES * PAGE_SIZE)
    requires OnlyFrames(m5, m6, {x.vmcb}) && x.vmcb !in Frames(Region(x.msrpm, MSRPM_PAGES))
    requires forall p: nat | p < MSRPM_PAGES * MAP_BITS_PER_PAGE :: MapBit(m4, x.msrpm * PAGE_SIZE, p)
    ensures AreasApart(x) && MsrMapReady(m6, x.msrpm * PAGE_SIZE)
  {
    hide ByteAt, OnlyBytes, OnlyFrames, Frames, Fresh, MapBit;
    AreaFilled(m4, m5, u3, u4, end, x.iopm, IOPM_PAGES);
    FreshParts(u3, m4, u4, m5, Frames(Region(x.iopm, IOPM_PAGES)), end);
    MapKept(m4, m5, Frames(Region(x.iopm, IOPM_PAGES)), x.msrpm, MSRPM_PAGES);
    MapKept(m5, m6, {x.vmcb}, x.msrpm, MSRPM_PAGES);
  }

  /** Three free frames below frame_end: one for the save area, one for the VMCB, and no two for a map. */
  lemma ThreeFramesAreTooFew(used: set<nat>)
    requires 1 in used && 2 in used && 3 in used && 4 !in used && 5 !in used && 6 !in used
    ensures InitVerdict(used, 7) == NullMap
  {
    hide Search;
    var used1 := used + Frames(Region(4, 1));
    var used2 := used1 + Frames(Region(5, 1));
    SingleFrame(4);
    SingleFrame(5);
    SearchIs(used, 7, 1, false);
    assert FirstRun(used, 7, 1, false, 4);
    SearchIs(used1, 7, 1, true);
    assert FirstRun(used1, 7, 1, true, 5);
    SearchIs(used2, 7, MSRPM_PAGES, true);
    forall s: nat
      ensures !Accepts(used2, 7, MSRPM_PAGES, true, s)
    {
      assert 4 in used2 && 5 in used2;
    }
  }

  // ---------------------------------------------------------------- isolation

  /** No guest address leads into the given frames. */
  ghost predicate Unreachable(m: Words, root: nat, frames: set<nat>) {
    forall a: nat | a < ADDRESS_LIMIT ::
      Walk(Decoded(m), root, a).Mapped? ==> FrameOf(Walk(Decoded(m), root, a).phys) !in frames
  }

  lemma OnlyItsBlock(m: Words, root: nat, block: Region, frames: set<nat>)
    requires Exact(Decoded(m), root, 0, block.frame * PAGE_SIZE, GUEST_MEMORY_SIZE / PAGE_SIZE_2MB)
    requires block.numFrames == GUEST_FRAMES && Frames(block) !! frames
    ensures Unreachable(m, root, frames)
  {
    hide Walk, Frames, RightsFrom;
    forall a: nat | a < ADDRESS_LIMIT && Walk(Decoded(m), root, a).Mapped?
      ensures FrameOf(Walk(Decoded(m), root, a).phys) !in frames
    {
      InFrames(block, block.frame * PAGE_SIZE + a);
    }
  }

  /** The guest runs on nested tables that lie outside its own block. */
  ghost predicate Confined(m: Words, root: nat, tables: set<nat>, block: Region) {
    && TablesIn(Decoded(m), root, tables) && tables !! Frames(block) && block.numFrames == GUEST_FRAMES
    && Exact(Decoded(m), root, 0, block.frame * PAGE_SIZE, GUEST_MEMORY_SIZE / PAGE_SIZE_2MB)
  }

  /** vm_init and setup_guest_memory end well, or one of them stops. */
  datatype Prepare = VmReady | InitStopped(init: Init) | SetupStopped(setup: Setup)

  /** A guest that is ready to run: its tables and control areas, relative to the memory before. */
  datatype Vm = Vm(areas: Areas, nCr3: nat, guestBase: nat, params: seq<Octet>)

  function GuestBlock(vm: Vm): Region {
    BlockOf(vm.guestBase)
  }

  /**
   * No guest address leads into a nested table, the host save area, the VMCB, the
   * permission maps or any frame that was in use before; these and the guest's
   * own block are pairwise disjoint; the guest sees what was loaded; and only
   * frames that were free have been written.
   */
  ghost predicate GuestPlaced(
      used0: set<nat>, m0: Words, used: set<nat>, m: Words, frameEnd: nat, g: Guest, vm: Vm, tables: set<nat>)
  {
    && vm.guestBase % PAGE_SIZE == 0 && AreasApart(vm.areas) && tables !! used0 + AreaFrames(vm.areas)
    && Frames(GuestBlock(vm)) !! used0 + AreaFrames(vm.areas) + tables
    && Unreachable(m, vm.nCr3 / PAGE_SIZE, used0 + AreaFrames(vm.areas) + tables)
    && Confined(m, vm.nCr3 / PAGE_SIZE, tables, GuestBlock(vm))
    && SeesExactly(m0, m, vm.nCr3 / PAGE_SIZE, g, vm.guestBase, vm.params)
    && MsrMapReady(m, vm.areas.msrpm * PAGE_SIZE) && IoMapReady(m, vm.areas.iopm * PAGE_SIZE)
    && Fresh(used0, m0, used, m, AreaFrames(vm.areas) + (Frames(GuestBlock(vm)) + tables), frameEnd)
  }

  /** And the control block leads to these maps and tables. */
  ghost predicate VmPrepared(
      used0: set<nat>, m0: Words, used: set<nat>, m: Words, frameEnd: nat, g: Guest, vm: Vm, tables: set<nat>)
  {
    && GuestPlaced(used0, m0, used, m, frameEnd, g, vm, tables)
    && Controls(FrameWords(m, vm.areas.vmcb), vm.areas.iopm * PAGE_SIZE, vm.areas.msrpm * PAGE_SIZE, vm.nCr3)
  }

  /** How the two end, from the state of the allocator and the verdict on the images. */
  ghost function PrepareVerdict(used: set<nat>, frameEnd: nat, load: Load): Prepare {
    var init := InitVerdict(used, frameEnd);
    if init != Initialized then InitStopped(init)
    else
      var setup := SetupVerdict(AfterInit(used, frameEnd), frameEnd, load);
      if setup != Ready then SetupStopped(setup) else VmReady
  }

  /** vm_init and setup_guest_memory in the order of kernel_main. */
  method PrepareVm(pa: Allocator, mem: PhysicalMemory, reconstructed: bool, g: Guest)
    returns (r: Prepare, vm: Vm, ghost tables: set<nat>, ghost written: set<nat>)
    requires pa.Valid() && g.kernelSize < WORD_LIMIT && SourcesKept(pa.used, pa.frameEnd, g)
    modifies pa`used, pa`live, pa.bitmap, mem
    ensures pa.Valid()
    ensures r == PrepareVerdict(old(pa.used), pa.frameEnd, KernelVerdict(RawParams(old(mem.words), g.kernel), g))
    ensures r != SetupStopped(NotLoaded(Overrun)) ==>
              Fresh(old(pa.used), old(mem.words), pa.used, mem.words, written, pa.frameEnd)
    ensures r == VmReady ==> KernelVerdict(RawParams(old(mem.words), g.kernel), g) == Loaded
    ensures r == VmReady ==>
              VmPrepared(old(pa.used), old(mem.words), pa.used, mem.words, pa.frameEnd, g, vm, tables)
  {
    hide Allocator.Valid, VmPrepared, Fresh, Kept, Frames, Exact, SeesExactly, TablesIn, AreasApart, InitVerdict,
         KernelVerdict, RawParams, MsrMapReady, IoMapReady, AreaFrames, AfterInit, SearchAligned, AfterPages,
         GuestPlaced, Controls, FrameWords, ToWord, OnlyFrames;
    ghost var m0, u0 := mem.words, pa.used;
    vm, tables := Vm(Areas(0, 0, 0, 0), 0, 0, []), {};
    var init, x;
    init, x, written := VmInit(pa, mem, reconstructed);
    if init != Initialized {
      r := InitStopped(init);
      return;
    }
    ghost var m1, u1, more := mem.words, pa.used, {};
    SourcesStayKept(m0, m1, u0, u1, AreaFrames(x), pa.frameEnd, g);
    var setup, nCr3, guestBase, params;
    setup, nCr3, guestBase, params, tables, more := SetupGuestMemory(pa, mem, reconstructed, g);
    if setup != NotLoaded(Overrun) {
      FreshCompose(u0, m0, u1, m1, pa.used, mem.words, AreaFrames(x), more, pa.frameEnd);
    }
    written := AreaFrames(x) + more;
    if setup != Ready {
      r := SetupStopped(setup);
      return;
    }
    r, vm := VmReady, Vm(x, nCr3, guestBase, params);
    ghost var m2 := mem.words;
    PhasesCompose(u0, m0, u1, m1, pa.used, m2, pa.frameEnd, g, vm, tables);
    StoreWord(mem, x.vmcb, N_CR3 / 8, ToWord(nCr3));
    SmallTables(pa, u1, m1, m2, more, nCr3);
    TablesAnnounced(u0, m0, pa.used, m2, mem.words, pa.frameEnd, g, vm, tables);
  }

  lemma SmallTables(pa: Allocator, used: set<nat>, m: Words, n: Words, frames: set<nat>, nCr3: nat)
    requires pa.Valid() && Fresh(used, m, pa.used, n, frames, pa.frameEnd) && nCr3 / PAGE_SIZE in frames
    ensures nCr3 < WORD_LIMIT
  {
  }

  /** Frames outside the tables and the block do not matter to the guest. */
  lemma StaysConfined(m: Words, n: Words, root: nat, tables: set<nat>, block: Region, frames: set<nat>)
    requires Confined(m, root, tables, block) && OnlyFrames(m, n, frames) && frames !! tables + Frames(block)
    ensures Confined(n, root, tables, block)
    ensures forall a: nat | a < ADDRESS_LIMIT :: GuestByte(n, root, a) == GuestByte(m, root, a)
  {
    hide Walk, ByteAt, TablesIn, Frames, RightsFrom;
    FramesKept(m, n, frames);
    forall f | f in tables
      ensures SameSlots(Decoded(m), Decoded(n), f)
    {
      SameFrameSameSlots(m, n, f);
    }
    WalksUnchanged(Decoded(m), Decoded(n), root, tables);
    forall a: nat | a < ADDRESS_LIMIT
      ensures GuestByte(n, root, a) == GuestByte(m, root, a)
    {
      if Walk(Decoded(m), root, a).Mapped? {
        InFrames(block, Walk(Decoded(m), root, a).phys);
        ByteOfKeptFrame(m, n, frames, Walk(Decoded(m), root, a).phys);
      }
    }
  }

  /** svm_vcpu_set_npt: the last store completes the control block and disturbs nothing. */
  lemma TablesAnnounced(
      u0: set<nat>, m0: Words, u: set<nat>, m: Words, n: Words, end: nat, g: Guest, vm: Vm, tables: set<nat>)
    requires GuestPlaced(u0, m0, u, m, end, g, vm, tables) && OnlyFrames(m, n, {vm.areas.vmcb}) && vm.nCr3 < WORD_LIMIT
    requires FrameWords(n, vm.areas.vmcb) == FrameWords(m, vm.areas.vmcb)[N_CR3 / 8 := ToWord(vm.nCr3)]
    requires Controls(FrameWords(m, vm.areas.vmcb), vm.areas.iopm * PAGE_SIZE, vm.areas.msrpm * PAGE_SIZE, 0)
    ensures VmPrepared(u0, m0, u, n, end, g, vm, tables)
    ensures Fresh(u0, m0, u, n, AreaFrames(vm.areas) + (Frames(GuestBlock(vm)) + tables), end)
  {
    hide Fresh, Frames, Exact, TablesIn, Walk, Confined, OnlyFrames, MapBit, FrameWords, Controls, GuestByte, Expected,
         Prepared, RawParams, ToWord;
    var root, vmcb := vm.nCr3 / PAGE_SIZE, vm.areas.vmcb;
    SingleFrame(vmcb);
    TablesSet(FrameWords(m, vmcb), vm.areas.iopm * PAGE_SIZE, vm.areas.msrpm * PAGE_SIZE, vm.nCr3);
    StaysConfined(m, n, root, tables, GuestBlock(vm), {vmcb});
    ConfinedIsUnreachable(n, root, tables, GuestBlock(vm), u0 + AreaFrames(vm.areas) + tables);
    MapKept(m, n, {vmcb}, vm.areas.msrpm, MSRPM_PAGES);
    MapKept(m, n, {vmcb}, vm.areas.iopm, IOPM_PAGES);
    WrittenAgain(u0, m0, u, m, n, AreaFrames(vm.areas) + (Frames(GuestBlock(vm)) + tables), end, vmcb);
  }

  lemma ConfinedIsUnreachable(m: Words, root: nat, tables: set<nat>, block: Region, frames: set<nat>)
    requires Confined(m, root, tables, block) && Frames(block) !! frames
    ensures Unreachable(m, root, frames)
  {
    hide Exact, Frames, Unreachable, TablesIn;
    OnlyItsBlock(m, root, block, frames);
  }

  /** The two phases together. */
  lemma PhasesCompose(
      u0: set<nat>, m0: Words, u1: set<nat>, m1: Words, u2: set<nat>, m2: Words, end: nat, g: Guest, vm: Vm,
      tables: set<nat>)
    requires AreasApart(vm.areas) && Fresh(u0, m0, u1, m1, AreaFrames(vm.areas), end)
    requires MsrMapReady(m1, vm.areas.msrpm * PAGE_SIZE) && IoMapReady(m1, vm.areas.iopm * PAGE_SIZE)
    requires SourcesKept(u0, end, g) && KernelVerdict(RawParams(m1, g.kernel), g) == Loaded
    requires vm.guestBase % PAGE_SIZE == 0 && SeesExactly(m1, m2, vm.nCr3 / PAGE_SIZE, g, vm.guestBase, vm.params)
    requires TablesIn(Decoded(m2), vm.nCr3 / PAGE_SIZE, tables) && tables !! Frames(GuestBlock(vm))
    requires Exact(Decoded(m2), vm.nCr3 / PAGE_SIZE, 0, vm.guestBase, GUEST_MEMORY_SIZE / PAGE_SIZE_2MB)
    requires Fresh(u1, m1, u2, m2, Frames(GuestBlock(vm)) + tables, end)
    requires Controls(FrameWords(m1, vm.areas.vmcb), vm.areas.iopm * PAGE_SIZE, vm.areas.msrpm * PAGE_SIZE, 0)
    ensures GuestPlaced(u0, m0, u2, m2, end, g, vm, tables)
    ensures Controls(FrameWords(m2, vm.areas.vmcb), vm.areas.iopm * PAGE_SIZE, vm.areas.msrpm * PAGE_SIZE, 0)
    ensures Fresh(u0, m0, u2, m2, AreaFrames(vm.areas) + (Frames(GuestBlock(vm)) + tables), end)
  {
    hide Fresh, Kept, Frames, Exact, TablesIn, AreasApart, SeesExactly, Unreachable, Confined, KernelVerdict, RawParams,
         OnlyFrames, MapBit, Controls, FrameWords;
    var more := Frames(GuestBlock(vm)) + tables;
    FreshParts(u0, m0, u1, m1, AreaFrames(vm.areas), end);
    FreshParts(u1, m1, u2, m2, more, end);
    FreshCompose(u0, m0, u1, m1, u2, m2, AreaFrames(vm.areas), more, end);
    MapKept(m1, m2, more, vm.areas.msrpm, MSRPM_PAGES);
    MapKept(m1, m2, more, vm.areas.iopm, IOPM_PAGES);
    SingleFrame(vm.areas.vmcb);
    WordsKept(m1, m2, more, vm.areas.vmcb);
    StartsConfined(m2, vm.nCr3 / PAGE_SIZE, tables, vm.guestBase);
    OnlyItsBlock(m2, vm.nCr3 / PAGE_SIZE, GuestBlock(vm), u1 + tables);
    assert u1 + tables == u0 + AreaFrames(vm.areas) + tables;
    SameSources(m0, m1, u0, u1, AreaFrames(vm.areas), end, g);
    SeenFromBefore(m0, m1, m2, vm.nCr3 / PAGE_SIZE, u0, u1, AreaFrames(vm.areas), end, g, vm);
  }

  lemma StartsConfined(m: Words, root: nat, tables: set<nat>, guestBase: nat)
    requires guestBase % PAGE_SIZE == 0 && TablesIn(Decoded(m), root, tables)
    requires Exact(Decoded(m), root, 0, guestBase, GUEST_MEMORY_SIZE / PAGE_SIZE_2MB)
    requires tables !! Frames(BlockOf(guestBase))
    ensures Confined(m, root, tables, BlockOf(guestBase))
    ensures guestBase / PAGE_SIZE * PAGE_SIZE == guestBase
  {
    hide Exact, TablesIn, Frames;
  }

  /** Writing frames that were free leaves the images where and what they were. */
  lemma SourcesStayKept(m: Words, n: Words, used: set<nat>, used': set<nat>, frames: set<nat>, frameEnd: nat, g: Guest)
    requires SourcesKept(used, frameEnd, g) && Fresh(used, m, used', n, frames, frameEnd)
    ensures SourcesKept(used', frameEnd, g) && RawParams(n, g.kernel) == RawParams(m, g.kernel)
  {
    SameSources(m, n, used, used', frames, frameEnd, g);
  }

  lemma SameSources(m: Words, n: Words, used: set<nat>, used': set<nat>, frames: set<nat>, frameEnd: nat, g: Guest)
    requires SourcesKept(used, frameEnd, g) && Fresh(used, m, used', n, frames, frameEnd)
    ensures forall a: nat | Inside(a, g.kernel, ImageBytes(g)) || Inside(a, g.initrd, g.initrdSize) ::
              ByteAt(n, a) == ByteAt(m, a)
    ensures RawParams(n, g.kernel) == RawParams(m, g.kernel)
  {
    hide ByteAt, OnlyFrames;
    forall a: nat | Inside(a, g.kernel, ImageBytes(g)) || Inside(a, g.initrd, g.initrdSize)
      ensures ByteAt(n, a) == ByteAt(m, a)
    {
      assert NotFree(FrameOf(a), used, frameEnd);
      ByteOfKeptFrame(m, n, frames, a);
    }
    forall i | 0 <= i < BOOT_PARAMS_SIZE
      ensures RawParams(n, g.kernel)[i] == RawParams(m, g.kernel)[i]
    {
      assert Inside(g.kernel + i, g.kernel, ImageBytes(g));
    }
  }

  /** What the guest sees, in terms of the memory before vm_init. */
  lemma SeenFromBefore(
      m0: Words, m1: Words, m: Words, root: nat, u0: set<nat>, u1: set<nat>, areas: set<nat>, end: nat, g: Guest,
      vm: Vm)
    requires SeesExactly(m1, m, root, g, vm.guestBase, vm.params) && vm.guestBase % PAGE_SIZE == 0
    requires KernelVerdict(RawParams(m1, g.kernel), g) == Loaded && RawParams(m1, g.kernel) == RawParams(m0, g.kernel)
    requires forall a: nat | Inside(a, g.kernel, ImageBytes(g)) || Inside(a, g.initrd, g.initrdSize) ::
               ByteAt(m1, a) == ByteAt(m0, a)
    requires Fresh(u0, m0, u1, m1, areas, end) && Frames(GuestBlock(vm)) !! u1
    ensures SeesExactly(m0, m, root, g, vm.guestBase, vm.params)
  {
    hide ByteAt, OnlyFrames, GuestByte, RawParams, Prepared, CmdlineByte, InitrdAddrMax, CodeOffset, CmdlineMax, Frames;
    forall a: nat | a < GUEST_MEMORY_SIZE
      ensures Expected(m1, g, vm.guestBase, vm.params, a) == Expected(m0, g, vm.guestBase, vm.params, a)
    {
      InFrames(GuestBlock(vm), vm.guestBase + a);
      ByteOfKeptFrame(m0, m1, areas, vm.guestBase + a);
    }
  }

  // ---------------------------------------------------------------- a running guest

  /** A byte the guest stores; a nested fault keeps it from happening where it is not mapped or not allowed. */
  datatype GuestStore = GuestStore(addr: nat, byte: Octet)

  function AfterStore(m: Words, root: nat, w: GuestStore): Words {
    match Walk(Decoded(m), root, w.addr)
    case Fault => m
    case Mapped(phys, _) =>
      var rights := RightsFrom(Decoded(m), root, 4, w.addr);
      if rights.write && rights.user then m[phys / 8 := WithByte(At(m, phys / 8), phys % 8, w.byte)] else m
  }

  function AfterStores(m: Words, root: nat, ws: seq<GuestStore>): Words {
    if ws == [] then m else AfterStore(AfterStores(m, root, ws[..|ws| - 1]), root, ws[|ws| - 1])
  }

  /** The last byte stored at a, or what was there. */
  function LastStored(ws: seq<GuestStore>, a: nat, initial: Option<Octet>): Option<Octet> {
    if ws == [] || initial == None then initial
    else if ws[|ws| - 1].addr == a then Some(ws[|ws| - 1].byte)
    else LastStored(ws[..|ws| - 1], a, initial)
  }

  /** One store: the tables and their translations stay, and the guest sees its store and nothing else change. */
  lemma StoreIsConfined(m: Words, root: nat, tables: set<nat>, block: Region, w: GuestStore)
    requires Confined(m, root, tables, block) && w.addr < ADDRESS_LIMIT
    ensures Confined(AfterStore(m, root, w), root, tables, block)
    ensures OnlyFrames(m, AfterStore(m, root, w), Frames(block))
    ensures forall a: nat | a < ADDRESS_LIMIT ::
              GuestByte(AfterStore(m, root, w), root, a) ==
              if a == w.addr && GuestByte(m, root, a).Some? then Some(w.byte) else GuestByte(m, root, a)
  {
    hide Walk, ByteAt, TablesIn, Frames, WithByte, RightsFrom;
    var n := AfterStore(m, root, w);
    var host := block.frame * PAGE_SIZE;
    if Walk(Decoded(m), root, w.addr).Mapped? {
      var phys := Walk(Decoded(m), root, w.addr).phys;
      InFrames(block, phys);
      assert phys / 8 / 512 == FrameOf(phys);
      FramesKept(m, n, Frames(block));
      forall f | f in tables
        ensures SameSlots(Decoded(m), Decoded(n), f)
      {
        SameFrameSameSlots(m, n, f);
      }
      WalksUnchanged(Decoded(m), Decoded(n), root, tables);
      forall a: nat | a < ADDRESS_LIMIT
        ensures GuestByte(n, root, a) == if a == w.addr then Some(w.byte) else GuestByte(m, root, a)
      {
        if Walk(Decoded(m), root, a).Mapped? {
          ByteStored(m, phys, w.byte, Walk(Decoded(m), root, a).phys);
        }
      }
    }
  }

  /**
   * Whatever the guest stores, its memory behaves as memory: each address reads
   * as the last byte stored there, addresses outside stay unmapped, and nothing
   * outside the guest's block has changed, the tables and maps included.
   */
  lemma {:induction false} GuestIsConfined(m: Words, root: nat, tables: set<nat>, block: Region, ws: seq<GuestStore>)
    requires Confined(m, root, tables, block) && forall i | 0 <= i < |ws| :: ws[i].addr < ADDRESS_LIMIT
    ensures Confined(AfterStores(m, root, ws), root, tables, block)
    ensures OnlyFrames(m, AfterStores(m, root, ws), Frames(block))
    ensures forall a: nat | a < ADDRESS_LIMIT ::
              GuestByte(AfterStores(m, root, ws), root, a) == LastStored(ws, a, GuestByte(m, root, a))
  {
    hide Confined, GuestByte, AfterStore, Frames;
    if ws != [] {
      var before := ws[..|ws| - 1];
      GuestIsConfined(m, root, tables, block, before);
      StoreIsConfined(AfterStores(m, root, before), root, tables, block, ws[|ws| - 1]);
      forall a: nat | a < ADDRESS_LIMIT
        ensures GuestByte(AfterStores(m, root, ws), root, a) == LastStored(ws, a, GuestByte(m, root, a))
      {
        SomeOrNone(before, a, GuestByte(m, root, a));
      }
    }
  }

  /**
   * From the state PrepareVm leaves, no sequence of guest stores changes a word
   * outside the guest's own block, so none of a nested table, a control area or
   * anything that was in use before; none opens an intercepted port or MSR, or
   * makes such a frame reachable.
   */
  lemma GuestCannotEscape(
      used0: set<nat>, m0: Words, used: set<nat>, m: Words, frameEnd: nat, g: Guest, vm: Vm, tables: set<nat>,
      ws: seq<GuestStore>)
    requires VmPrepared(used0, m0, used, m, frameEnd, g, vm, tables)
    requires forall i | 0 <= i < |ws| :: ws[i].addr < ADDRESS_LIMIT
    ensures var n, root := AfterStores(m, vm.nCr3 / PAGE_SIZE, ws), vm.nCr3 / PAGE_SIZE;
            && OnlyFrames(m, n, Frames(GuestBlock(vm)))
            && Frames(GuestBlock(vm)) !! used0 + AreaFrames(vm.areas) + tables
            && Unreachable(n, root, used0 + AreaFrames(vm.areas) + tables)
            && MsrMapReady(n, vm.areas.msrpm * PAGE_SIZE) && IoMapReady(n, vm.areas.iopm * PAGE_SIZE)
            && Controls(FrameWords(n, vm.areas.vmcb), vm.areas.iopm * PAGE_SIZE, vm.areas.msrpm * PAGE_SIZE, vm.nCr3)
  {
    hide Frames, Walk, MapBit, AfterStores, Exact, TablesIn, OnlyFrames, Unreachable, SeesExactly, Fresh, AreasApart,
         Controls, FrameWords;
    var n, root, block := AfterStores(m, vm.nCr3 / PAGE_SIZE, ws), vm.nCr3 / PAGE_SIZE, GuestBlock(vm);
    GuestIsConfined(m, root, tables, block, ws);
    OnlyItsBlock(n, root, block, used0 + AreaFrames(vm.areas) + tables);
    MapKept(m, n, Frames(block), vm.areas.msrpm, MSRPM_PAGES);
    MapKept(m, n, Frames(block), vm.areas.iopm, IOPM_PAGES);
    SingleFrame(vm.areas.vmcb);
    WordsKept(m, n, Frames(block), vm.areas.vmcb);
  }

  /** Started from its control block, the guest's first instruction is the first byte of the image's code. */
  lemma GuestStartsInItsKernel(
      used0: set<nat>, m0: Words, used: set<nat>, m: Words, frameEnd: nat, g: Guest, vm: Vm, tables: set<nat>)
    requires VmPrepared(used0, m0, used, m, frameEnd, g, vm, tables)
    requires KernelVerdict(RawParams(m0, g.kernel), g) == Loaded && CodeStart(m0, g) < g.kernelSize
    ensures var ws := FrameWords(m, vm.areas.vmcb);
            var root, rip := Value(ws[0x0B0 / 8]) / PAGE_SIZE, Value(ws[0x578 / 8]);
            GuestByte(m, root, rip) == Some(ByteAt(m0, g.kernel + CodeStart(m0, g)))
  {
    hide GuestByte, ByteAt, KernelVerdict, RawParams, SeesExactly, CodeStart, FrameWords, Fresh, Frames, Unreachable,
         Confined, AreasApart, Value, MapBit;
    GuestByAddress(m0, m, vm.nCr3 / PAGE_SIZE, g, vm.guestBase, vm.params);
    assert Inside(0x10_0000, 0x10_0000, g.kernelSize - CodeStart(m0, g)) by { AcceptedExactly(m0, g); }
  }

  lemma {:induction false} SomeOrNone(ws: seq<GuestStore>, a: nat, initial: Option<Octet>)
    ensures LastStored(ws, a, initial).Some? <==> initial.Some?
  {
    if ws != [] {
      SomeOrNone(ws[..|ws| - 1], a, initial);
    }
  }
}
