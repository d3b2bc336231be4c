/**
 * allocate_table, which ymirc/arch/x86/svm_npt.c and ymirc/arch/x86/page.c both
 * define: one zeroed page for a page table.
 */
module TablePages {
  import opened Bits
  import opened Memory
  import opened PageAllocator
  import opened PageTables
  import opened Wrappers

  /** Allocates a frame that was free and fills it with zeros; the source panics when there is none. */
  method AllocateTable(pa: Allocator, mem: PhysicalMemory, reconstructed: bool) returns (ok: bool, frame: nat)
    requires pa.Valid()
    modifies pa`used, pa`live, pa.bitmap, mem
    ensures pa.Valid()
    ensures !ok ==> pa.used == old(pa.used) && pa.live == old(pa.live) && mem.words == old(mem.words)
    ensures !ok ==> forall f: nat | 1 <= f && f + 1 < pa.frameEnd :: f in pa.used
    ensures Search(old(pa.used), pa.frameEnd, 1, true, 1) == if ok then Some(frame) else None
    ensures AfterPages(old(pa.used), pa.frameEnd, 1) == if ok then Some(pa.used) else None
    ensures ok ==> 1 <= frame < pa.frameEnd <= 0x200_0000 && frame !in old(pa.used) && pa.used == old(pa.used) + {frame}
    ensures ok ==> pa.live == old(pa.live) + {Region(frame, 1)}
    ensures ok ==> OnlyFrames(old(mem.words), mem.words, {frame})
    ensures ok ==> forall i | 0 <= i < 512 :: InFrame(mem.words, frame, i) == Zero()
  {
    hide Search, IsLeastAligned;
    ghost var used := pa.used;
    SearchIs(used, pa.frameEnd, 1, true);
    OnePage(used, pa.frameEnd);
    EveryMultiple(used, pa.frameEnd, 1);
    assert PAGE_SIZE / PAGE_SIZE == 1;
    var ptr;
    ghost var block;
    ptr, block := pa.AllocAlignedPages(1, PAGE_SIZE, reconstructed);
    ok := ptr != 0;
    frame := 0;
    if !ok {
      NoFreeFrame(pa.used, pa.frameEnd);
    } else {
      LeastIsFirst(used, pa.frameEnd, block);
      ConversionRoundTrip(reconstructed, reconstructed, block.frame * PAGE_SIZE);
      frame := Virt2Phys(reconstructed, ptr) / PAGE_SIZE;
      assert block == Region(frame, 1);
      SingleFrame(frame);
      ClearTable(mem, frame);
    }
  }

  /** alloc_aligned_pages as its other callers see it: frames that were free, by their physical number. */
  method AllocateBlock(pa: Allocator, numPages: nat, alignSize: nat, reconstructed: bool) returns (ok: bool, frame: nat)
    requires pa.Valid() && 0 < numPages < WORD_LIMIT && 0 < alignSize < WORD_LIMIT
    modifies pa`used, pa`live, pa.bitmap
    ensures pa.Valid()
    ensures !ok ==> pa.used == old(pa.used) && pa.live == old(pa.live)
    ensures !ok && alignSize % PAGE_SIZE == 0 ==>
              NoneFits(pa.used, pa.frameEnd, numPages, alignSize / PAGE_SIZE)
    ensures ok ==>
              && 1 <= frame && frame + numPages <= pa.frameEnd <= 0x200_0000
              && IsLeastAligned(old(pa.used), pa.frameEnd, Region(frame, numPages), alignSize / PAGE_SIZE)
              && Frames(Region(frame, numPages)) !! old(pa.used)
              && pa.used == old(pa.used) + Frames(Region(frame, numPages))
              && pa.live == old(pa.live) + {Region(frame, numPages)}
  {
    hide IsLeastAligned;
    var ptr;
    ghost var block;
    ptr, block := pa.AllocAlignedPages(numPages, alignSize, reconstructed);
    ok, frame := ptr != 0, 0;
    if ok {
      ConversionRoundTrip(reconstructed, reconstructed, block.frame * PAGE_SIZE);
      frame := Virt2Phys(reconstructed, ptr) / PAGE_SIZE;
      assert block == Region(frame, numPages);
    }
  }

  /** The aligned search for one page fails only when all frames but possibly the last are used. */
  lemma NoFreeFrame(used: set<nat>, frameEnd: nat)
    requires forall k: nat :: !AlignedFit(used, frameEnd, k, 1, PAGE_SIZE / PAGE_SIZE)
    ensures forall f: nat | 1 <= f && f + 1 < frameEnd :: f in used
  {
    forall f: nat | 1 <= f && f + 1 < frameEnd
      ensures f in used
    {
      MultipleOfOne(f);
      assert PAGE_SIZE / PAGE_SIZE == 1;
      assert !AlignedFit(used, frameEnd, f, 1, 1);
    }
  }
}
