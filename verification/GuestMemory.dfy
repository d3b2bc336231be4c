/**
 * Guest memory setup (ymirc/arch/x86/vm.c): one 100MiB block for the guest, the
 * Linux image loaded into it, and nested tables over it.
 */
module GuestMemory {
  import opened Bits
  import opened Memory
  import opened Bytes
  import opened BootParameters
  import opened PageAllocator
  import opened PageTables
  import opened NestedPaging
  import opened TablePages
  import opened Wrappers
  import opened Arithmetic

  const KERNEL_CMDLINE := "console=ttyS0 earlyprintk=serial nokaslr"
  const KERNEL_CMDLINE_LEN := 40

  /** Where the boot loader left the kernel image and the initial ramdisk. */
  datatype Guest = Guest(kernel: nat, kernelSize: nat, initrd: nat, initrdSize: nat)

  // ---------------------------------------------------------------- load_image

  /** Overrun: the check was passed by wrap-around and the copy leaves guest memory. */
  datatype Load = Loaded | Panicked | Overrun

  function LoadVerdict(memorySize: nat, addr: nat, size: nat): Load {
    if memorySize < (addr + size) % WORD_LIMIT then Panicked
    else if memorySize < addr + size then Overrun
    else Loaded
  }

  /** The source range of a copy is clear of guest memory. */
  predicate Clear(memory: nat, memorySize: nat, src: nat, size: nat) {
    size == 0 || src + size <= memory || memory + memorySize <= src
  }

  /** From m to n, [base, base + size) was overwritten with the bytes at `src`. */
  ghost predicate CopiedFrom(m: Words, n: Words, base: nat, src: nat, size: nat) {
    && OnlyBytes(m, n, base, base + size)
    && forall c | base <= c < base + size :: ByteAt(n, c) == ByteAt(m, src + (c - base))
  }

  method LoadImage(mem: PhysicalMemory, memory: nat, memorySize: nat, src: nat, size: nat, addr: nat) returns (r: Load)
    requires addr + size <= memorySize ==> Clear(memory, memorySize, src, size)
    modifies mem
    ensures r == LoadVerdict(memorySize, addr, size)
    ensures r == Loaded ==> CopiedFrom(old(mem.words), mem.words, memory + addr, src, size)
    ensures r != Loaded ==> mem.words == old(mem.words)
  {
    hide ByteAt;
    if memorySize < (addr + size) % WORD_LIMIT {
      return Panicked;
    }
    if memorySize < addr + size {
      return Overrun;
    }
    Memcpy(mem, memory + addr, src, size);
    r := Loaded;
  }

  /**
   * The check before the kernel code is copied: it fails to protect guest memory
   * exactly when the image is smaller than the offset of its code.
   */
  lemma CodeCheck(kernelSize: nat, offset: nat)
    requires kernelSize < GUEST_MEMORY_SIZE && offset <= 0x2_0000
    ensures var r := LoadVerdict(GUEST_MEMORY_SIZE, LINUX_LAYOUT_KERNEL_BASE, Sub64(kernelSize, offset));
            && (r == Overrun <==> kernelSize < offset)
            && (r == Panicked
                <==> offset <= kernelSize && LINUX_LAYOUT_KERNEL_BASE + (kernelSize - offset) > GUEST_MEMORY_SIZE)
  {
  }

  // ---------------------------------------------------------------- load_kernel

  /** The 4096 bytes at the start of the image. */
  function RawParams(m: Words, kernel: nat): (raw: seq<Octet>)
    ensures |raw| == BOOT_PARAMS_SIZE
  {
    seq<Octet>(BOOT_PARAMS_SIZE, i requires 0 <= i => ByteAt(m, kernel + i))
  }

  /** protected_code_offset: the boot sector and the setup sectors, as the image counts them. */
  function CodeOffset(raw: seq<Octet>): nat
    requires |raw| == BOOT_PARAMS_SIZE
  {
    (Value(raw[SETUP_SECTS]) + 1) * 512
  }

  function CodeSize(raw: seq<Octet>, g: Guest): nat
    requires |raw| == BOOT_PARAMS_SIZE
  {
    if g.kernelSize < CodeOffset(raw) then 0 else g.kernelSize - CodeOffset(raw)
  }

  function CmdlineMax(raw: seq<Octet>): nat
    requires |raw| == BOOT_PARAMS_SIZE
  {
    var size := FieldValue(raw[CMDLINE_SIZE..CMDLINE_SIZE + 4]);
    if size < 256 then size else 256
  }

  function InitrdAddrMax(raw: seq<Octet>): nat
    requires |raw| == BOOT_PARAMS_SIZE
  {
    FieldValue(raw[INITRD_ADDR_MAX..INITRD_ADDR_MAX + 4])
  }

  /** How load_kernel ends, from the sizes and the image's header. */
  function KernelVerdict(raw: seq<Octet>, g: Guest): Load
    requires |raw| == BOOT_PARAMS_SIZE
  {
    if g.kernelSize >= GUEST_MEMORY_SIZE then Panicked
    else if g.initrdSize > GUEST_MEMORY_SIZE - LINUX_LAYOUT_INITRD then Panicked
    else if InitrdAddrMax(raw) < LINUX_LAYOUT_INITRD + g.initrdSize then Panicked
    else if g.kernelSize < CodeOffset(raw) then Overrun
    else if CodeSize(raw, g) > GUEST_MEMORY_SIZE - LINUX_LAYOUT_KERNEL_BASE then Panicked
    else Loaded
  }

  function CmdlineByte(k: nat): Octet {
    if k < |KERNEL_CMDLINE| then OctetOf(KERNEL_CMDLINE[k] as int) else OctetOf(0)
  }

  predicate Inside(a: nat, base: nat, size: nat) {
    base <= a < base + size
  }

  /**
   * The byte at guest address a: kernel code over boot parameters over the
   * ramdisk over the command line, and elsewhere what the block held before.
   */
  function Expected(m: Words, g: Guest, host: nat, params: seq<Octet>, a: nat): Octet
    requires |params| == BOOT_PARAMS_SIZE
  {
    var raw := RawParams(m, g.kernel);
    if Inside(a, LINUX_LAYOUT_KERNEL_BASE, CodeSize(raw, g)) then
      ByteAt(m, g.kernel + CodeOffset(raw) + (a - LINUX_LAYOUT_KERNEL_BASE))
    else if Inside(a, LINUX_LAYOUT_BOOTPARAM, BOOT_PARAMS_SIZE) then params[a - LINUX_LAYOUT_BOOTPARAM]
    else if Inside(a, LINUX_LAYOUT_INITRD, g.initrdSize) then ByteAt(m, g.initrd + (a - LINUX_LAYOUT_INITRD))
    else if Inside(a, LINUX_LAYOUT_CMDLINE, CmdlineMax(raw)) then CmdlineByte(a - LINUX_LAYOUT_CMDLINE)
    else ByteAt(m, host + a)
  }

  /** Byte a of the block at `host`. */
  function BlockByte(m: Words, host: nat, a: nat): Octet {
    ByteAt(m, host + a)
  }

  ghost predicate CmdlineStored(m: Words, n: Words, base: nat, max: nat) {
    && OnlyBytes(m, n, base, base + max)
    && forall c | base <= c < base + max :: ByteAt(n, c) == CmdlineByte(c - base)
  }

  ghost predicate ObjectStored(m: Words, n: Words, base: nat, bytes: seq<Octet>) {
    && OnlyBytes(m, n, base, base + |bytes|)
    && forall c | base <= c < base + |bytes| :: ByteAt(n, c) == bytes[c - base]
  }

  /** The command line, cut or padded with zeros. */
  method LoadCmdline(mem: PhysicalMemory, host: nat, max: nat)
    modifies mem
    ensures CmdlineStored(old(mem.words), mem.words, host + LINUX_LAYOUT_CMDLINE, max)
  {
    hide ByteAt, OctetOf, CmdlineText, CmdlineByte;
    var cmdline := host + LINUX_LAYOUT_CMDLINE;
    var len := if KERNEL_CMDLINE_LEN < max then KERNEL_CMDLINE_LEN else max;
    Memset(mem, cmdline, OctetOf(0), max);
    CopyObject(mem, cmdline, CmdlineText(len));
    PaddedWithZeros();
  }

  /** The first characters of the command line. */
  function CmdlineText(len: nat): (bs: seq<Octet>)
    requires len <= KERNEL_CMDLINE_LEN
    ensures |bs| == len && forall i | 0 <= i < len :: bs[i] == CmdlineByte(i)
  {
    seq<Octet>(len, i requires 0 <= i < len => CmdlineByte(i))
  }

  lemma PaddedWithZeros()
    ensures forall k: nat | k >= KERNEL_CMDLINE_LEN :: CmdlineByte(k) == OctetOf(0)
  {
  }

  /** The sources of all copies are clear of the guest's block. */
  predicate SourcesClear(g: Guest, host: nat) {
    && Clear(host, GUEST_MEMORY_SIZE, g.kernel, ImageBytes(g))
    && Clear(host, GUEST_MEMORY_SIZE, g.initrd, g.initrdSize)
  }

  /** The four stores of load_kernel, one over the other. */
  lemma Layered(m0: Words, m1: Words, m2: Words, m3: Words, m4: Words, g: Guest, host: nat, params: seq<Octet>)
    requires |params| == BOOT_PARAMS_SIZE && SourcesClear(g, host)
    requires KernelVerdict(RawParams(m0, g.kernel), g) == Loaded
    requires CmdlineStored(m0, m1, host + LINUX_LAYOUT_CMDLINE, CmdlineMax(RawParams(m0, g.kernel)))
    requires CopiedFrom(m1, m2, host + LINUX_LAYOUT_INITRD, g.initrd, g.initrdSize)
    requires ObjectStored(m2, m3, host + LINUX_LAYOUT_BOOTPARAM, params)
    requires var raw := RawParams(m0, g.kernel);
             CopiedFrom(m3, m4, host + LINUX_LAYOUT_KERNEL_BASE, g.kernel + CodeOffset(raw), CodeSize(raw, g))
    ensures OnlyBytes(m0, m4, host, host + GUEST_MEMORY_SIZE)
    ensures forall a | 0 <= a < GUEST_MEMORY_SIZE :: BlockByte(m4, host, a) == Expected(m0, g, host, params, a)
  {
    hide ByteAt, CmdlineByte, CodeOffset, RawParams, CmdlineStored, CopiedFrom, ObjectStored, KernelVerdict, Expected,
         CmdlineMax, SourcesClear;
    forall a: nat | a < GUEST_MEMORY_SIZE
      ensures BlockByte(m4, host, a) == Expected(m0, g, host, params, a)
    {
      LayeredAt(m0, m1, m2, m3, m4, g, host, params, a);
    }
    forall c: nat | !Inside(c, host, GUEST_MEMORY_SIZE)
      ensures ByteAt(m4, c) == ByteAt(m0, c)
    {
      LayeredOutside(m0, m1, m2, m3, m4, g, host, params, c);
    }
  }

  /** The layers at one byte of the block. */
  lemma LayeredAt(
      m0: Words, m1: Words, m2: Words, m3: Words, m4: Words, g: Guest, host: nat, params: seq<Octet>, a: nat)
    requires a < GUEST_MEMORY_SIZE
    requires |params| == BOOT_PARAMS_SIZE && SourcesClear(g, host)
    requires KernelVerdict(RawParams(m0, g.kernel), g) == Loaded
    requires CmdlineStored(m0, m1, host + LINUX_LAYOUT_CMDLINE, CmdlineMax(RawParams(m0, g.kernel)))
    requires CopiedFrom(m1, m2, host + LINUX_LAYOUT_INITRD, g.initrd, g.initrdSize)
    requires ObjectStored(m2, m3, host + LINUX_LAYOUT_BOOTPARAM, params)
    requires var raw := RawParams(m0, g.kernel);
             CopiedFrom(m3, m4, host + LINUX_LAYOUT_KERNEL_BASE, g.kernel + CodeOffset(raw), CodeSize(raw, g))
    ensures BlockByte(m4, host, a) == Expected(m0, g, host, params, a)
  {
    hide ByteAt, CmdlineByte, CodeOffset, InitrdAddrMax, RawParams, CmdlineStored, CopiedFrom, ObjectStored;
    var raw := RawParams(m0, g.kernel);
    CmdlineAt(m0, m1, host + LINUX_LAYOUT_CMDLINE, CmdlineMax(raw), host + a);
    CopyAt(m1, m2, host + LINUX_LAYOUT_INITRD, g.initrd, g.initrdSize, host + a);
    ObjectAt(m2, m3, host + LINUX_LAYOUT_BOOTPARAM, params, host + a);
    CopyAt(m3, m4, host + LINUX_LAYOUT_KERNEL_BASE, g.kernel + CodeOffset(raw), CodeSize(raw, g), host + a);
    if Inside(a, LINUX_LAYOUT_KERNEL_BASE, CodeSize(raw, g)) {
      var c := g.kernel + CodeOffset(raw) + (a - LINUX_LAYOUT_KERNEL_BASE);
      CmdlineAt(m0, m1, host + LINUX_LAYOUT_CMDLINE, CmdlineMax(raw), c);
      CopyAt(m1, m2, host + LINUX_LAYOUT_INITRD, g.initrd, g.initrdSize, c);
      ObjectAt(m2, m3, host + LINUX_LAYOUT_BOOTPARAM, params, c);
    } else if Inside(a, LINUX_LAYOUT_INITRD, g.initrdSize) {
      CmdlineAt(m0, m1, host + LINUX_LAYOUT_CMDLINE, CmdlineMax(raw), g.initrd + (a - LINUX_LAYOUT_INITRD));
    }
  }

  /** And outside the block. */
  lemma LayeredOutside(
      m0: Words, m1: Words, m2: Words, m3: Words, m4: Words, g: Guest, host: nat, params: seq<Octet>, c: nat)
    requires !Inside(c, host, GUEST_MEMORY_SIZE)
    requires |params| == BOOT_PARAMS_SIZE && SourcesClear(g, host)
    requires KernelVerdict(RawParams(m0, g.kernel), g) == Loaded
    requires CmdlineStored(m0, m1, host + LINUX_LAYOUT_CMDLINE, CmdlineMax(RawParams(m0, g.kernel)))
    requires CopiedFrom(m1, m2, host + LINUX_LAYOUT_INITRD, g.initrd, g.initrdSize)
    requires ObjectStored(m2, m3, host + LINUX_LAYOUT_BOOTPARAM, params)
    requires var raw := RawParams(m0, g.kernel);
             CopiedFrom(m3, m4, host + LINUX_LAYOUT_KERNEL_BASE, g.kernel + CodeOffset(raw), CodeSize(raw, g))
    ensures ByteAt(m4, c) == ByteAt(m0, c)
  {
    hide ByteAt, CmdlineByte, CodeOffset, InitrdAddrMax, RawParams, CmdlineStored, CopiedFrom, ObjectStored;
    var raw := RawParams(m0, g.kernel);
    CmdlineAt(m0, m1, host + LINUX_LAYOUT_CMDLINE, CmdlineMax(raw), c);
    CopyAt(m1, m2, host + LINUX_LAYOUT_INITRD, g.initrd, g.initrdSize, c);
    ObjectAt(m2, m3, host + LINUX_LAYOUT_BOOTPARAM, params, c);
    CopyAt(m3, m4, host + LINUX_LAYOUT_KERNEL_BASE, g.kernel + CodeOffset(raw), CodeSize(raw, g), c);
  }

  lemma NothingStored(m: Words, lo: nat, hi: nat)
    ensures OnlyBytes(m, m, lo, hi)
  {
  }

  lemma CmdlineInside(m: Words, n: Words, host: nat, raw: seq<Octet>)
    requires |raw| == BOOT_PARAMS_SIZE && CmdlineStored(m, n, host + LINUX_LAYOUT_CMDLINE, CmdlineMax(raw))
    ensures OnlyBytes(m, n, host, host + GUEST_MEMORY_SIZE)
  {
    hide ByteAt;
  }

  lemma LayersInside(m0: Words, m1: Words, m2: Words, m3: Words, g: Guest, host: nat, params: seq<Octet>)
    requires OnlyBytes(m0, m1, host, host + GUEST_MEMORY_SIZE) && |params| == BOOT_PARAMS_SIZE
    requires g.initrdSize <= GUEST_MEMORY_SIZE - LINUX_LAYOUT_INITRD
    requires CopiedFrom(m1, m2, host + LINUX_LAYOUT_INITRD, g.initrd, g.initrdSize)
    requires ObjectStored(m2, m3, host + LINUX_LAYOUT_BOOTPARAM, params)
    ensures OnlyBytes(m0, m3, host, host + GUEST_MEMORY_SIZE)
  {
    hide ByteAt;
  }

  lemma CmdlineAt(m: Words, n: Words, base: nat, max: nat, c: nat)
    requires CmdlineStored(m, n, base, max)
    ensures ByteAt(n, c) == if Inside(c, base, max) then CmdlineByte(c - base) else ByteAt(m, c)
  {
  }

  lemma CopyAt(m: Words, n: Words, base: nat, src: nat, size: nat, c: nat)
    requires CopiedFrom(m, n, base, src, size)
    ensures ByteAt(n, c) == if Inside(c, base, size) then ByteAt(m, src + (c - base)) else ByteAt(m, c)
  {
  }

  lemma ObjectAt(m: Words, n: Words, base: nat, bytes: seq<Octet>, c: nat)
    requires ObjectStored(m, n, base, bytes)
    ensures ByteAt(n, c) == if Inside(c, base, |bytes|) then bytes[c - base] else ByteAt(m, c)
  {
  }

  method LoadParams(mem: PhysicalMemory, host: nat, bytes: seq<Octet>)
    modifies mem
    ensures ObjectStored(old(mem.words), mem.words, host + LINUX_LAYOUT_BOOTPARAM, bytes)
  {
    CopyObject(mem, host + LINUX_LAYOUT_BOOTPARAM, bytes);
  }

  /** The loader reads the same header before and after its stores. */
  lemma HeaderReads(raw: seq<Octet>, bytes: seq<Octet>, initrdSize: nat)
    requires |raw| == |bytes| == BOOT_PARAMS_SIZE
    requires Patched(raw, bytes, HeaderFields(raw[LOADFLAGS])) || Prepared(raw, bytes, initrdSize)
    ensures CmdlineMax(bytes) == CmdlineMax(raw) && InitrdAddrMax(bytes) == InitrdAddrMax(raw)
    ensures CodeOffset(bytes) == CodeOffset(raw) <= 0x2_0000
  {
    hide Patched, HeaderFields, Prepared, Value, FieldValue;
    ReadFieldsKept(raw, bytes, initrdSize);
    SetupSectsBound(raw[SETUP_SECTS]);
  }

  /** load_kernel. */
  method LoadKernel(mem: PhysicalMemory, host: nat, g: Guest) returns (r: Load, params: seq<Octet>)
    requires g.kernelSize < WORD_LIMIT && SourcesClear(g, host)
    modifies mem
    ensures r == KernelVerdict(RawParams(old(mem.words), g.kernel), g)
    ensures r == Loaded ==> Prepared(RawParams(old(mem.words), g.kernel), params, g.initrdSize)
    ensures r != Overrun ==> OnlyBytes(old(mem.words), mem.words, host, host + GUEST_MEMORY_SIZE)
    ensures r == Loaded ==> |params| == BOOT_PARAMS_SIZE
    ensures r == Loaded ==> forall a | 0 <= a < GUEST_MEMORY_SIZE ::
              BlockByte(mem.words, host, a) == Expected(old(mem.words), g, host, params, a)
  {
    hide ByteAt, Expected, Patched, HeaderFields, Prepared, RawParams, OnlyBytes, CopiedFrom, CmdlineStored,
         ObjectStored, CmdlineMax, InitrdAddrMax, CodeOffset;
    params := [];
    ghost var m0 := mem.words;
    NothingStored(m0, host, host + GUEST_MEMORY_SIZE);
    if g.kernelSize >= GUEST_MEMORY_SIZE {
      return Panicked, params;
    }
    var raw := RawParams(mem.words, g.kernel);
    var bp := new BootParams(raw);
    StoreHeaderFields(bp);
    HeaderReads(raw, bp.bytes, g.initrdSize);
    LoadCmdline(mem, host, CmdlineMax(bp.bytes));
    if GUEST_MEMORY_SIZE - LINUX_LAYOUT_INITRD < g.initrdSize
        || InitrdAddrMax(bp.bytes) < LINUX_LAYOUT_INITRD + g.initrdSize {
      CmdlineInside(m0, mem.words, host, raw);
      return Panicked, params;
    }
    StoreRamdisk(bp, g.initrdSize);
    HeaderReads(raw, bp.bytes, g.initrdSize);
    ghost var m1 := mem.words;
    r := LoadImage(mem, host, GUEST_MEMORY_SIZE, g.initrd, g.initrdSize, LINUX_LAYOUT_INITRD);
    ghost var m2 := mem.words;
    LoadParams(mem, host, bp.bytes);
    ghost var m3 := mem.words;
    var offset := CodeOffset(bp.bytes);
    CodeCheck(g.kernelSize, offset);
    r := LoadImage(mem, host, GUEST_MEMORY_SIZE, g.kernel + offset, Sub64(g.kernelSize, offset),
        LINUX_LAYOUT_KERNEL_BASE);
    params := bp.bytes;
    if r == Panicked {
      CmdlineInside(m0, m1, host, raw);
      LayersInside(m0, m1, m2, m3, g, host, params);
    }
    if r == Loaded {
      Layered(m0, m1, m2, m3, mem.words, g, host, params);
    }
  }

  lemma SetupSectsBound(b: Octet)
    ensures Value(b) < 0x100
  {
    BitsOfValue(b);
    Pow2By8(0);
  }

  // ---------------------------------------------------------------- setup_guest_memory

  function FrameOf(a: nat): nat {
    a / PAGE_SIZE
  }

  /** The range lies in frames the allocator does not hand out. */
  ghost predicate Kept(used: set<nat>, frameEnd: nat, lo: nat, size: nat) {
    forall a | lo <= a < lo + size :: NotFree(FrameOf(a), used, frameEnd)
  }

  /** How many bytes of the image are read: its header is read in full even if the image is shorter. */
  function ImageBytes(g: Guest): nat {
    if g.kernelSize < BOOT_PARAMS_SIZE then BOOT_PARAMS_SIZE else g.kernelSize
  }

  ghost predicate SourcesKept(used: set<nat>, frameEnd: nat, g: Guest) {
    Kept(used, frameEnd, g.kernel, ImageBytes(g)) && Kept(used, frameEnd, g.initrd, g.initrdSize)
  }

  lemma KeptIsClear(used: set<nat>, frameEnd: nat, block: Region, lo: nat, size: nat)
    requires Kept(used, frameEnd, lo, size) && Frames(block) !! used && block.numFrames > 0
    requires 1 <= block.frame && block.frame + block.numFrames <= frameEnd
    ensures Clear(block.frame * PAGE_SIZE, block.numFrames * PAGE_SIZE, lo, size)
  {
    var host := block.frame * PAGE_SIZE;
    if !Clear(host, block.numFrames * PAGE_SIZE, lo, size) {
      var a := if lo < host then host else lo;
      InFrames(block, a);
    }
  }

  lemma InFrames(block: Region, a: nat)
    ensures Inside(a, block.frame * PAGE_SIZE, block.numFrames * PAGE_SIZE) <==> FrameOf(a) in Frames(block)
  {
    assert Within(block, FrameOf(a)) <==> FrameOf(a) in Frames(block);
  }

  lemma {:induction false} MultipleOf512(k: nat)
    ensures Multiple(k, 512) % 512 == 0
  {
    if k > 0 {
      MultipleOf512(k - 1);
    }
  }

  lemma LargePageAligned(used: set<nat>, frameEnd: nat, block: Region)
    requires IsLeastAligned(used, frameEnd, block, 512)
    ensures block.frame * PAGE_SIZE % PAGE_SIZE_2MB == 0
  {
    var k: nat :| block.frame == Multiple(k, 512) && AlignedFit(used, frameEnd, k, block.numFrames, 512);
    MultipleOf512(k);
  }

  /** What the guest reads at a guest-physical address: nested translation treats its accesses as user accesses. */
  function GuestByte(m: Words, root: nat, a: nat): Option<Octet> {
    match Walk(Decoded(m), root, a)
    case Fault => None
    case Mapped(phys, _) => if RightsFrom(Decoded(m), root, 4, a).user then Some(ByteAt(m, phys)) else None
  }

  const GUEST_FRAMES := GUEST_MEMORY_SIZE / PAGE_SIZE

  datatype Setup = Ready | NoGuestMemory | NotLoaded(load: Load) | NoTables

  /** The guest reads exactly its block, byte by byte as expected, and nothing else. */
  ghost predicate SeesExactly(m0: Words, m: Words, root: nat, g: Guest, host: nat, params: seq<Octet>)
  {
    && |params| == BOOT_PARAMS_SIZE && Prepared(RawParams(m0, g.kernel), params, g.initrdSize)
    && forall a: nat | a < ADDRESS_LIMIT ::
         GuestByte(m, root, a) == if a < GUEST_MEMORY_SIZE then Some(Expected(m0, g, host, params, a)) else None
  }

  lemma TablesDisturbNothing(
      m0: Words, m1: Words, m2: Words, root: nat, tables: set<nat>, g: Guest, host: nat, params: seq<Octet>)
    requires BlockOf(host).frame * PAGE_SIZE == host && tables !! Frames(BlockOf(host)) && OnlyFrames(m1, m2, tables)
    requires |params| == BOOT_PARAMS_SIZE && Prepared(RawParams(m0, g.kernel), params, g.initrdSize)
    requires Exact(Decoded(m2), root, 0, host, GUEST_MEMORY_SIZE / PAGE_SIZE_2MB)
    requires forall a | 0 <= a < GUEST_MEMORY_SIZE :: BlockByte(m1, host, a) == Expected(m0, g, host, params, a)
    ensures SeesExactly(m0, m2, root, g, host, params)
  {
    hide ByteAt, Expected, Prepared, Walk, OnlyFrames, Frames, RightsFrom;
    forall a: nat | a < ADDRESS_LIMIT
      ensures GuestByte(m2, root, a) == if a < GUEST_MEMORY_SIZE then Some(Expected(m0, g, host, params, a)) else None
    {
      if a < GUEST_MEMORY_SIZE {
        InFrames(BlockOf(host), host + a);
        ByteOfKeptFrame(m1, m2, tables, host + a);
        assert BlockByte(m1, host, a) == Expected(m0, g, host, params, a);
      }
    }
  }

  /** A block that was free and is now filled. */
  lemma BlockFilled(m: Words, n: Words, used: set<nat>, block: Region, frameEnd: nat)
    requires OnlyBytes(m, n, block.frame * PAGE_SIZE, block.frame * PAGE_SIZE + block.numFrames * PAGE_SIZE)
    requires Frames(block) !! used && 1 <= block.frame && block.frame + block.numFrames <= frameEnd
    ensures Fresh(used, m, used + Frames(block), n, Frames(block), frameEnd)
  {
    hide ByteAt, At;
    forall k: nat | k / 512 !in Frames(block)
      ensures At(n, k) == At(m, k)
    {
      forall c: nat | 8 * k <= c < 8 * k + 8
        ensures ByteAt(n, c) == ByteAt(m, c)
      {
        InFrames(block, c);
        assert FrameOf(c) == k / 512;
      }
      WordOfBytes(m, n, k);
    }
    assert forall f | f in Frames(block) :: Within(block, f);
  }

  lemma FreshParts(used: set<nat>, m: Words, used': set<nat>, n: Words, frames: set<nat>, frameEnd: nat)
    requires Fresh(used, m, used', n, frames, frameEnd)
    ensures OnlyFrames(m, n, frames) && used !! frames && used' == used + frames
  {
  }

  /** The nested tables of the guest's 100MiB: one of each level. */
  const GUEST_TABLES := 3

  lemma GuestTableCount()
    ensures TableCount(0, GUEST_MEMORY_SIZE / PAGE_SIZE_2MB) == GUEST_TABLES
  {
    hide Page;
    assert GUEST_MEMORY_SIZE / PAGE_SIZE_2MB == 50;
    PageNumbers(0);
    PageNumbers(LastMapped(0, 50));
  }

  /** How setup_guest_memory ends, from the state of the allocator and the verdict on the images. */
  ghost function SetupVerdict(used: set<nat>, frameEnd: nat, load: Load): Setup {
    match SearchAligned(used, frameEnd, GUEST_FRAMES, 512, 0)
    case None => NoGuestMemory
    case Some(frame) =>
      if load != Loaded then NotLoaded(load)
      else if AfterPages(used + Frames(Region(frame, GUEST_FRAMES)), frameEnd, GUEST_TABLES) == None then NoTables
      else Ready
  }

  /**
   * setup_guest_memory: how it ends is decided by the allocator's state and the
   * images. When it succeeds, what was loaded is what the guest sees, and it sees
   * nothing else: the zeroing and filling of nested tables after loading disturbs
   * none of it. Unless a copy overran, only frames that were free are written.
   */
  method SetupGuestMemory(pa: Allocator, mem: PhysicalMemory, reconstructed: bool, g: Guest)
    returns (r: Setup, nCr3: nat, guestBase: nat, params: seq<Octet>, ghost tables: set<nat>, ghost written: set<nat>)
    requires pa.Valid() && g.kernelSize < WORD_LIMIT && SourcesKept(pa.used, pa.frameEnd, g)
    modifies pa`used, pa`live, pa.bitmap, mem
    ensures pa.Valid()
    ensures r == SetupVerdict(old(pa.used), pa.frameEnd, KernelVerdict(RawParams(old(mem.words), g.kernel), g))
    ensures r != NotLoaded(Overrun) ==>
              Fresh(old(pa.used), old(mem.words), pa.used, mem.words, written, pa.frameEnd)
    ensures r == Ready ==>
              && nCr3 % PAGE_SIZE == 0 && guestBase % PAGE_SIZE == 0 && guestBase % PAGE_SIZE_2MB == 0
              && SeesExactly(old(mem.words), mem.words, nCr3 / PAGE_SIZE, g, guestBase, params)
    ensures r == Ready ==>
              && nCr3 / PAGE_SIZE in tables && TablesIn(Decoded(mem.words), nCr3 / PAGE_SIZE, tables)
              && Exact(Decoded(mem.words), nCr3 / PAGE_SIZE, 0, guestBase, GUEST_MEMORY_SIZE / PAGE_SIZE_2MB)
              && tables !! Frames(BlockOf(guestBase)) && written == Frames(BlockOf(guestBase)) + tables
  {
    hide Exact, SeesExactly, TablesIn, Allocator.Valid, Expected, Prepared, ByteAt, KernelVerdict, RawParams, OnlyBytes,
         OnlyFrames, Kept, SearchAligned, AfterPages, Fresh, Frames, BlockOf, BlockByte, TableCount;
    nCr3, guestBase, params, tables, written := 0, 0, [], {}, {};
    ghost var m0, used0 := mem.words, pa.used;
    NothingFresh(used0, m0, pa.frameEnd);
    var ok;
    ok, guestBase := AllocateGuest(pa, reconstructed);
    if !ok {
      r := NoGuestMemory;
      return;
    }
    ghost var used1 := pa.used;
    SourcesAreClear(used0, used1, pa.frameEnd, guestBase, g);
    var load;
    load, params := LoadKernel(mem, guestBase, g);
    ghost var m1 := mem.words;
    written := Frames(BlockOf(guestBase));
    if load != Loaded {
      if load == Panicked {
        NothingFresh(used1, m1, pa.frameEnd);
        BlockAndTables(m0, m1, m1, used0, used1, used1, pa.frameEnd, guestBase, {});
        assert Frames(BlockOf(guestBase)) + {} == Frames(BlockOf(guestBase));
      }
      r := NotLoaded(load);
      return;
    }
    var outcome;
    outcome, nCr3, tables := InitNpt(0, guestBase, GUEST_MEMORY_SIZE, pa, mem, reconstructed);
    GuestTableCount();
    BlockAndTables(m0, m1, mem.words, used0, used1, pa.used, pa.frameEnd, guestBase, tables);
    written := Frames(BlockOf(guestBase)) + tables;
    if outcome != Done {
      r := NoTables;
      return;
    }
    r := Ready;
    TablesDisturbNothing(m0, m1, mem.words, nCr3 / PAGE_SIZE, tables, g, guestBase, params);
  }

  lemma NothingFresh(used: set<nat>, m: Words, frameEnd: nat)
    ensures Fresh(used, m, used, m, {}, frameEnd)
  {
  }

  /** The frames of the guest's memory. */
  function BlockOf(guestBase: nat): Region {
    Region(guestBase / PAGE_SIZE, GUEST_FRAMES)
  }

  /** The guest's block has been taken from the free frames. */
  ghost predicate BlockTaken(used: set<nat>, used': set<nat>, frameEnd: nat, guestBase: nat) {
    && guestBase % PAGE_SIZE == 0 && BlockOf(guestBase).frame * PAGE_SIZE == guestBase
    && Frames(BlockOf(guestBase)) !! used && used' == used + Frames(BlockOf(guestBase))
    && 1 <= BlockOf(guestBase).frame && BlockOf(guestBase).frame + GUEST_FRAMES <= frameEnd
  }

  /** The allocation of 100MiB at a multiple of 2MiB. */
  method AllocateGuest(pa: Allocator, reconstructed: bool) returns (ok: bool, guestBase: nat)
    requires pa.Valid()
    modifies pa`used, pa`live, pa.bitmap
    ensures pa.Valid()
    ensures SearchAligned(old(pa.used), pa.frameEnd, GUEST_FRAMES, 512, 0)
            == if ok then Some(BlockOf(guestBase).frame) else None
    ensures !ok ==> pa.used == old(pa.used)
    ensures ok ==> BlockOf(guestBase) == Region(BlockOf(guestBase).frame, GUEST_FRAMES)
    ensures ok ==> BlockTaken(old(pa.used), pa.used, pa.frameEnd, guestBase)
    ensures ok ==> guestBase % PAGE_SIZE_2MB == 0 && guestBase + GUEST_MEMORY_SIZE <= FRAME_LIMIT * PAGE_SIZE
  {
    hide Allocator.Valid, IsLeastAligned, NoneFits, Frames, SearchAligned;
    var frame;
    ok, frame := AllocateBlock(pa, GUEST_FRAMES, PAGE_SIZE_2MB, reconstructed);
    assert PAGE_SIZE_2MB / PAGE_SIZE == 512;
    guestBase := frame * PAGE_SIZE;
    ByPage(guestBase, frame, 0);
    if ok {
      assert BlockOf(guestBase) == Region(frame, GUEST_FRAMES);
      LargePageAligned(old(pa.used), pa.frameEnd, Region(frame, GUEST_FRAMES));
      SearchAlignedIs(old(pa.used), pa.frameEnd, Region(frame, GUEST_FRAMES), 512);
    } else {
      SearchAlignedFails(pa.used, pa.frameEnd, GUEST_FRAMES, 512, 0);
    }
  }

  lemma SourcesAreClear(used: set<nat>, used': set<nat>, frameEnd: nat, guestBase: nat, g: Guest)
    requires BlockTaken(used, used', frameEnd, guestBase) && SourcesKept(used, frameEnd, g)
    ensures SourcesClear(g, guestBase)
  {
    hide Kept, Frames;
    KeptIsClear(used, frameEnd, BlockOf(guestBase), g.kernel, ImageBytes(g));
    KeptIsClear(used, frameEnd, BlockOf(guestBase), g.initrd, g.initrdSize);
  }

  lemma BlockAndTables(
      m0: Words, m1: Words, m2: Words, used0: set<nat>, used1: set<nat>, used2: set<nat>, frameEnd: nat, guestBase: nat,
      tables: set<nat>)
    requires BlockTaken(used0, used1, frameEnd, guestBase)
    requires OnlyBytes(m0, m1, guestBase, guestBase + GUEST_MEMORY_SIZE)
             && Fresh(used1, m1, used2, m2, tables, frameEnd)
    ensures tables !! Frames(BlockOf(guestBase)) && OnlyFrames(m1, m2, tables)
    ensures Fresh(used0, m0, used2, m2, Frames(BlockOf(guestBase)) + tables, frameEnd)
    ensures BlockOf(guestBase).frame * PAGE_SIZE == guestBase
  {
    hide OnlyBytes, Fresh, Frames, OnlyFrames;
    BlockFilled(m0, m1, used0, BlockOf(guestBase), frameEnd);
    FreshCompose(used0, m0, used1, m1, used2, m2, Frames(BlockOf(guestBase)), tables, frameEnd);
    FreshParts(used1, m1, used2, m2, tables, frameEnd);
  }

  /**
   * Through the nested tables the guest finds the kernel's protected-mode code,
   * the boot parameters and the ramdisk where Linux expects them. Code that
   * reaches past the ramdisk's base has overwritten the ramdisk's first bytes.
   */
  lemma GuestFindsItsKernel(m0: Words, m: Words, root: nat, g: Guest, host: nat, params: seq<Octet>)
    requires SeesExactly(m0, m, root, g, host, params) && KernelVerdict(RawParams(m0, g.kernel), g) == Loaded
    ensures var offset, size := CodeOffset(RawParams(m0, g.kernel)), CodeSize(RawParams(m0, g.kernel), g);
            && (forall a: nat | Inside(a, LINUX_LAYOUT_KERNEL_BASE, size) ::
                  GuestByte(m, root, a) == Some(ByteAt(m0, g.kernel + offset + (a - LINUX_LAYOUT_KERNEL_BASE))))
            && (forall a: nat | Inside(a, LINUX_LAYOUT_INITRD, g.initrdSize) ::
                  GuestByte(m, root, a) == if a < LINUX_LAYOUT_KERNEL_BASE + size then
                                             Some(ByteAt(m0, g.kernel + offset + (a - LINUX_LAYOUT_KERNEL_BASE)))
                                           else
                                             Some(ByteAt(m0, g.initrd + (a - LINUX_LAYOUT_INITRD))))
    ensures forall a: nat | Inside(a, LINUX_LAYOUT_BOOTPARAM, BOOT_PARAMS_SIZE) ::
              GuestByte(m, root, a) == Some(params[a - LINUX_LAYOUT_BOOTPARAM])
  {
    hide ByteAt, GuestByte, RawParams, CodeOffset, InitrdAddrMax, Prepared;
  }

  /** The offset of the protected-mode code: past the boot sector and the setup sectors counted in the image. */
  function CodeStart(m: Words, g: Guest): nat {
    512 * (Value(ByteAt(m, g.kernel + 0x1F1)) + 1)
  }

  lemma CodeStarts(m: Words, g: Guest)
    ensures CodeOffset(RawParams(m, g.kernel)) == CodeStart(m, g)
  {
    hide ByteAt, Value;
  }

  /** An image is loaded if and only if it holds its own setup code and fits into the 100MiB, as does its ramdisk. */
  lemma AcceptedExactly(m: Words, g: Guest)
    ensures var raw := RawParams(m, g.kernel);
            KernelVerdict(raw, g) == Loaded
            <==> && CodeStart(m, g) <= g.kernelSize < 0x640_0000
                 && 0x10_0000 + (g.kernelSize - CodeStart(m, g)) <= 0x640_0000
                 && 0x600_0000 + g.initrdSize <= 0x640_0000
                 && 0x600_0000 + g.initrdSize <= FieldValue(raw[0x22C..0x230])
    ensures var raw := RawParams(m, g.kernel);
            KernelVerdict(raw, g) == Overrun
            <==> && g.kernelSize < CodeStart(m, g) && g.kernelSize < 0x640_0000
                 && 0x600_0000 + g.initrdSize <= 0x640_0000
                 && 0x600_0000 + g.initrdSize <= FieldValue(raw[0x22C..0x230])
  {
    hide ByteAt, Value, FieldValue, RawParams, CodeOffset, CodeStart;
    CodeStarts(m, g);
  }

  /**
   * What the record tells the guest is so: the ramdisk and the command line lie
   * where the header says, as long as it says, and the addresses its memory map
   * calls RAM are the ones that translate.
   */
  lemma HeaderTellsTheTruth(m0: Words, m: Words, root: nat, g: Guest, host: nat, params: seq<Octet>)
    requires SeesExactly(m0, m, root, g, host, params) && KernelVerdict(RawParams(m0, g.kernel), g) == Loaded
    ensures |params| == 0x1000 && FieldValue(params[0x21C..0x220]) == g.initrdSize
    ensures var image, end := FieldValue(params[0x218..0x21C]), 0x10_0000 + (g.kernelSize - CodeStart(m0, g));
            forall a: nat | Inside(a, image, FieldValue(params[0x21C..0x220])) && end <= a ::
              GuestByte(m, root, a) == Some(ByteAt(m0, g.initrd + (a - image)))
    ensures var text, size := FieldValue(params[0x228..0x22C]), FieldValue(params[0x238..0x23C]);
            forall a: nat | Inside(a, text, size) && a < text + 256 ::
              if a - text < |KERNEL_CMDLINE| then
                GuestByte(m, root, a) == Some(OctetOf(KERNEL_CMDLINE[a - text] as int))
              else GuestByte(m, root, a) == Some(OctetOf(0))
    ensures forall a: nat | a < ADDRESS_LIMIT :: GuestByte(m, root, a).Some? <==> InRam(params, a)
  {
    hide ByteAt, GuestByte, RawParams, CodeOffset, InitrdAddrMax, CodeStart, Prepared, FieldValue, InRam, OctetOf,
         Value;
    AcceptedExactly(m0, g);
    CodeStarts(m0, g);
    HeaderAsRead(RawParams(m0, g.kernel), params, g.initrdSize);
    HeaderReads(RawParams(m0, g.kernel), params, g.initrdSize);
    forall a: nat | a < ADDRESS_LIMIT
      ensures GuestByte(m, root, a).Some? <==> InRam(params, a)
    {
      RamAsRead(RawParams(m0, g.kernel), params, g.initrdSize, a);
    }
  }

  /** The code at 1MiB and the parameters at 64KiB. */
  lemma GuestByAddress(m0: Words, m: Words, root: nat, g: Guest, host: nat, params: seq<Octet>)
    requires SeesExactly(m0, m, root, g, host, params) && KernelVerdict(RawParams(m0, g.kernel), g) == Loaded
    ensures forall a: nat | Inside(a, 0x10_0000, g.kernelSize - CodeStart(m0, g)) ::
              GuestByte(m, root, a) == Some(ByteAt(m0, g.kernel + CodeStart(m0, g) + (a - 0x10_0000)))
    ensures |params| == 0x1000
            && forall a: nat | Inside(a, 0x1_0000, 0x1000) :: GuestByte(m, root, a) == Some(params[a - 0x1_0000])
  {
    hide ByteAt, GuestByte, RawParams, CodeOffset, CodeStart, KernelVerdict, SeesExactly, FieldValue;
    AcceptedExactly(m0, g);
    CodeStarts(m0, g);
    GuestFindsItsKernel(m0, m, root, g, host, params);
    SeesRecord(m0, m, root, g, host, params);
  }

  lemma SeesRecord(m0: Words, m: Words, root: nat, g: Guest, host: nat, params: seq<Octet>)
    requires SeesExactly(m0, m, root, g, host, params)
    ensures |params| == BOOT_PARAMS_SIZE
  {
  }

  // ---------------------------------------------------------------- images that count no setup sectors

  /** Where the boot protocol, and setupheader_from_bzimage, put the code: 0 setup sectors stand for 4. */
  function ProtocolOffset(raw: seq<Octet>): nat
    requires |raw| == BOOT_PARAMS_SIZE
  {
    var sects := Value(raw[SETUP_SECTS]);
    ((if sects == 0 then 4 else sects) + 1) * 512
  }

  /** The loader's offset is the protocol's if and only if the image counts at least one setup sector. */
  lemma OffsetsAgree(raw: seq<Octet>)
    requires |raw| == BOOT_PARAMS_SIZE
    ensures ProtocolOffset(raw) == CodeOffset(raw) <==> Value(raw[SETUP_SECTS]) != 0
    ensures Value(raw[SETUP_SECTS]) == 0 ==> CodeOffset(raw) == 512 && ProtocolOffset(raw) == 2560
  {
  }

  /** The guest finds the code the protocol speaks of at the kernel base. */
  ghost predicate CodeInPlace(m0: Words, m: Words, root: nat, g: Guest) {
    var offset := ProtocolOffset(RawParams(m0, g.kernel));
    forall a: nat | LINUX_LAYOUT_KERNEL_BASE <= a && offset + (a - LINUX_LAYOUT_KERNEL_BASE) < g.kernelSize ::
      GuestByte(m, root, a) == Some(ByteAt(m0, g.kernel + offset + (a - LINUX_LAYOUT_KERNEL_BASE)))
  }

  /** The image repeats itself at a distance of four sectors, so that the mistake cannot be seen. */
  ghost predicate Repeats(m0: Words, g: Guest) {
    forall k: nat | 2560 + k < g.kernelSize :: ImageByte(m0, g, 2560, k) == ImageByte(m0, g, 512, k)
  }

  function ImageByte(m: Words, g: Guest, offset: nat, k: nat): Octet {
    ByteAt(m, g.kernel + offset + k)
  }

  /** The code is in place if and only if the image counts a setup sector, images that repeat themselves aside. */
  lemma CodeInPlaceExactly(m0: Words, m: Words, root: nat, g: Guest, host: nat, params: seq<Octet>)
    requires SeesExactly(m0, m, root, g, host, params) && KernelVerdict(RawParams(m0, g.kernel), g) == Loaded
    ensures CodeInPlace(m0, m, root, g) <==> Value(RawParams(m0, g.kernel)[SETUP_SECTS]) != 0 || Repeats(m0, g)
  {
    hide ByteAt, GuestByte, RawParams, InitrdAddrMax, SeesExactly, Value;
    GuestFindsItsKernel(m0, m, root, g, host, params);
    if Value(RawParams(m0, g.kernel)[SETUP_SECTS]) == 0 {
      if CodeInPlace(m0, m, root, g) {
        forall k: nat | 2560 + k < g.kernelSize
          ensures ImageByte(m0, g, 2560, k) == ImageByte(m0, g, 512, k)
        {
          var a := LINUX_LAYOUT_KERNEL_BASE + k;
          assert GuestByte(m, root, a) == Some(ByteAt(m0, g.kernel + 2560 + k));
          assert Inside(a, LINUX_LAYOUT_KERNEL_BASE, CodeSize(RawParams(m0, g.kernel), g));
        }
      }
      if Repeats(m0, g) {
        forall a: nat | LINUX_LAYOUT_KERNEL_BASE <= a && 2560 + (a - LINUX_LAYOUT_KERNEL_BASE) < g.kernelSize
          ensures GuestByte(m, root, a) == Some(ByteAt(m0, g.kernel + 2560 + (a - LINUX_LAYOUT_KERNEL_BASE)))
        {
          var k := a - LINUX_LAYOUT_KERNEL_BASE;
          assert Inside(a, LINUX_LAYOUT_KERNEL_BASE, CodeSize(RawParams(m0, g.kernel), g));
          assert ImageByte(m0, g, 2560, k) == ImageByte(m0, g, 512, k);
        }
      }
    }
  }

  const SOME_IMAGE := 0x100_0000

  /** Two bytes of an image that is zero elsewhere: one of its fields, and the first byte after the boot sector. */
  function ImageWithoutSectors(): Words {
    var top := OctetOf(0xFF);
    map[(SOME_IMAGE + 0x228) / 8 := WithByte(Zero(), 7, top), (SOME_IMAGE + 0x200) / 8 := WithByte(Zero(), 0, top)]
  }

  /** Such an image is accepted, and its guest starts in the setup code instead of the kernel. */
  lemma ZeroSectorsMisplaceTheCode(m: Words, root: nat, host: nat, params: seq<Octet>)
    ensures var m0, g := ImageWithoutSectors(), Guest(SOME_IMAGE, 0xA01, 0, 0);
            && KernelVerdict(RawParams(m0, g.kernel), g) == Loaded
            && (SeesExactly(m0, m, root, g, host, params) ==>
                  && GuestByte(m, root, LINUX_LAYOUT_KERNEL_BASE) == Some(ByteAt(m0, g.kernel + 512))
                  && GuestByte(m, root, LINUX_LAYOUT_KERNEL_BASE) != Some(ByteAt(m0, g.kernel + 2560)))
  {
    var m0, g := ImageWithoutSectors(), Guest(SOME_IMAGE, 0xA01, 0, 0);
    ImageAccepted();
    ImageBytesDiffer();
    hide ByteAt, GuestByte, RawParams, InitrdAddrMax, SeesExactly, Value, ImageWithoutSectors, KernelVerdict;
    if SeesExactly(m0, m, root, g, host, params) {
      GuestFindsItsKernel(m0, m, root, g, host, params);
      OffsetsAgree(RawParams(m0, g.kernel));
      CodeFollowsSector(RawParams(m0, g.kernel), g);
    }
  }

  lemma CodeFollowsSector(raw: seq<Octet>, g: Guest)
    requires |raw| == BOOT_PARAMS_SIZE && CodeOffset(raw) == 512 && g.kernelSize > 512
    ensures Inside(LINUX_LAYOUT_KERNEL_BASE, LINUX_LAYOUT_KERNEL_BASE, CodeSize(raw, g))
  {
  }

  lemma ImageBytesDiffer()
    ensures ByteAt(ImageWithoutSectors(), SOME_IMAGE + 512) != ByteAt(ImageWithoutSectors(), SOME_IMAGE + 2560)
  {
    hide OctetOf, WithByte;
    LowestBitOfTop();
    var m0, k := ImageWithoutSectors(), (SOME_IMAGE + 0x200) / 8;
    ByteReplaced(Zero(), 0, OctetOf(0xFF), 0);
    assert At(m0, k) == WithByte(Zero(), 0, OctetOf(0xFF));
    assert (SOME_IMAGE + 512) / 8 == k && (SOME_IMAGE + 512) % 8 == 0;
    assert (SOME_IMAGE + 2560) / 8 !in m0 && (SOME_IMAGE + 2560) % 8 == 0;
  }

  lemma LowestBitOfTop()
    ensures OctetOf(0xFF)[0]
  {
  }

  lemma ImageAccepted()
    ensures var raw, g := RawParams(ImageWithoutSectors(), SOME_IMAGE), Guest(SOME_IMAGE, 0xA01, 0, 0);
            KernelVerdict(raw, g) == Loaded && Value(raw[SETUP_SECTS]) == 0
  {
    hide FieldValue, Value, BitsOf;
    var m0 := ImageWithoutSectors();
    var raw := RawParams(m0, SOME_IMAGE);
    ImageBytesAre();
    hide ImageWithoutSectors, ByteAt;
    NoBitIsZero(raw[SETUP_SECTS]);
    OctetValue(0xFF);
    TopByteBounds(raw[INITRD_ADDR_MAX..INITRD_ADDR_MAX + 4]);
  }

  lemma ImageBytesAre()
    ensures ByteAt(ImageWithoutSectors(), SOME_IMAGE + SETUP_SECTS) == Zero()[8..16]
    ensures ByteAt(ImageWithoutSectors(), SOME_IMAGE + (INITRD_ADDR_MAX + 3)) == OctetOf(0xFF)
  {
    hide OctetOf, WithByte;
    ByteReplaced(Zero(), 7, OctetOf(0xFF), 7);
    var m0, k := ImageWithoutSectors(), (SOME_IMAGE + 0x228) / 8;
    assert (SOME_IMAGE + (INITRD_ADDR_MAX + 3)) / 8 == k && (SOME_IMAGE + (INITRD_ADDR_MAX + 3)) % 8 == 7;
    assert At(m0, k) == WithByte(Zero(), 7, OctetOf(0xFF));
    assert (SOME_IMAGE + SETUP_SECTS) / 8 !in m0 && (SOME_IMAGE + SETUP_SECTS) % 8 == 1;
  }

  lemma {:induction false} NoBitIsZero(bits: seq<bool>)
    requires forall i | 0 <= i < |bits| :: !bits[i]
    ensures Value(bits) == 0
  {
    if bits != [] {
      NoBitIsZero(bits[1..]);
    }
  }

  lemma TopByteBounds(bs: seq<Octet>)
    requires |bs| == 4
    ensures FieldValue(bs) >= 0x100_0000 * Value(bs[3])
  {
    assert FieldValue(bs) >= 0x100 * FieldValue(bs[1..]);
    assert FieldValue(bs[1..]) >= 0x100 * FieldValue(bs[1..][1..]);
    assert FieldValue(bs[1..][1..]) >= 0x100 * FieldValue(bs[1..][1..][1..]);
    assert bs[1..][1..][1..] == bs[3..];
    assert FieldValue(bs[3..]) >= Value(bs[3..][0]) == Value(bs[3]);
  }
}
