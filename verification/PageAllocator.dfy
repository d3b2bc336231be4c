/**
 * The physical page allocator (ymirc/page_allocator.c): one bit per 4KiB frame
 * in 64-bit map lines, a table of regions reserved by the firmware, first-fit
 * and aligned searches, and initialisation from the UEFI memory map.
 */
module PageAllocator {
  import opened Bits
  import opened Memory
  import opened Wrappers

  /** A run of frames: a reserved region, or a block handed out. */
  datatype Region = Region(frame: nat, numFrames: nat)

  ghost predicate Within(r: Region, f: nat) {
    r.frame <= f < r.frame + r.numFrames
  }

  ghost function Frames(r: Region): set<nat> {
    set f | r.frame <= f < r.frame + r.numFrames && Within(r, f)
  }

  lemma SingleFrame(f: nat)
    ensures Frames(Region(f, 1)) == {f}
  {
    assert forall g | g in Frames(Region(f, 1)) :: Within(Region(f, 1), g);
    assert Within(Region(f, 1), f);
  }

  ghost predicate Apart(r: Region, s: Region) {
    r.frame + r.numFrames <= s.frame || s.frame + s.numFrames <= r.frame
  }

  /** The test of overlaps_reserved on one region. */
  predicate Overlap(r: Region, s: Region) {
    r.frame < s.frame + s.numFrames && r.frame + r.numFrames > s.frame
  }

  ghost predicate Covered(rs: seq<Region>, f: nat) {
    exists i :: 0 <= i < |rs| && Within(rs[i], f)
  }

  ghost predicate InBlock(live: set<Region>, f: nat) {
    exists b :: b in live && Within(b, f)
  }

  // ---------------------------------------------------------------- what allocations leave alone

  /** The frames were free, are now used, and are the only ones written. */
  ghost predicate Fresh(used: set<nat>, m: Words, used': set<nat>, n: Words, frames: set<nat>, frameEnd: nat) {
    && used' == used + frames && used !! frames && OnlyFrames(m, n, frames)
    && (forall f | f in frames :: 1 <= f < frameEnd)
  }

  lemma FreshCompose(
      u0: set<nat>, m0: Words, u1: set<nat>, m1: Words, u2: set<nat>, m2: Words, f: set<nat>, g: set<nat>, end: nat)
    requires Fresh(u0, m0, u1, m1, f, end) && Fresh(u1, m1, u2, m2, g, end)
    ensures Fresh(u0, m0, u2, m2, f + g, end)
  {
  }

  /** The frame will not be handed out by the allocator. */
  ghost predicate NotFree(f: nat, used: set<nat>, frameEnd: nat) {
    f in used || f >= frameEnd || f == 0
  }

  // ---------------------------------------------------------------- the bitmap

  /** The map lines say "used" for exactly the frames in `used`. */
  ghost predicate Mirrors(lines: seq<Word>, used: set<nat>) {
    && (forall i, s | 0 <= i < |lines| && 0 <= s < 64 :: lines[i][s] <==> 64 * i + s in used)
    && (forall f | f in used :: f < 64 * |lines|)
  }

  /** The used set determines the map lines word for word. */
  lemma MirrorsUnique(lines: seq<Word>, other: seq<Word>, used: set<nat>)
    requires Mirrors(lines, used) && Mirrors(other, used) && |lines| == |other|
    ensures lines == other
  {
    forall i | 0 <= i < |lines|
      ensures lines[i] == other[i]
    {
      forall s | 0 <= s < 64
        ensures lines[i][s] == other[i][s]
      {
        assert lines[i][s] <==> 64 * i + s in used;
      }
    }
  }

  // ---------------------------------------------------------------- the searches

  /** Frames start .. start+n-1 are managed and unused. */
  ghost predicate FreeRun(used: set<nat>, frameEnd: nat, start: nat, n: nat) {
    start + n <= frameEnd && forall f | start <= f < start + n :: f !in used
  }

  /** The k-th multiple of an alignment. */
  function Multiple(k: nat, align: nat): nat {
    if k == 0 then 0 else Multiple(k - 1, align) + align
  }

  lemma {:induction false} MultiplesAscend(j: nat, k: nat, align: nat)
    requires j <= k
    ensures Multiple(j, align) <= Multiple(k, align)
  {
    if j < k {
      MultiplesAscend(j, k - 1, align);
    }
  }

  /** What the aligned search accepts: only its first candidate may end right at frame_end. */
  ghost predicate AlignedFit(used: set<nat>, frameEnd: nat, k: nat, n: nat, align: nat) {
    && k >= 1
    && FreeRun(used, frameEnd, Multiple(k, align), n)
    && (k == 1 || Multiple(k, align) + n < frameEnd)
  }

  /** There is nothing the aligned search accepts. */
  ghost predicate NoneFits(used: set<nat>, frameEnd: nat, n: nat, align: nat) {
    forall k: nat :: !AlignedFit(used, frameEnd, k, n, align)
  }

  lemma {:induction false} MultipleOfOne(f: nat)
    ensures Multiple(f, 1) == f
  {
    if f > 0 {
      MultipleOfOne(f - 1);
    }
  }
  /** What the search misses when it fails: at most a free run that ends right at frame_end. */
  lemma OnlyAtTheEnd(used: set<nat>, frameEnd: nat, n: nat, align: nat)
    requires forall j: nat :: !AlignedFit(used, frameEnd, j, n, align)
    ensures forall j: nat | j >= 1 && FreeRun(used, frameEnd, Multiple(j, align), n) ::
              j >= 2 && Multiple(j, align) + n == frameEnd
  {
    forall j: nat | j >= 1 && FreeRun(used, frameEnd, Multiple(j, align), n)
      ensures j >= 2 && Multiple(j, align) + n == frameEnd
    {
      assert !AlignedFit(used, frameEnd, j, n, align);
    }
  }

  /** The least multiple the search accepts is the least that starts a free run at all. */
  lemma LeastOfAll(used: set<nat>, frameEnd: nat, k: nat, n: nat, align: nat)
    requires align > 0 && FreeRun(used, frameEnd, Multiple(k, align), n)
    requires forall j | 0 <= j < k :: !AlignedFit(used, frameEnd, j, n, align)
    ensures forall j | 1 <= j < k :: !FreeRun(used, frameEnd, Multiple(j, align), n)
  {
    forall j | 1 <= j < k
      ensures !FreeRun(used, frameEnd, Multiple(j, align), n)
    {
      MultiplesAscend(j + 1, k, align);
      assert !AlignedFit(used, frameEnd, j, n, align);
    }
  }

  /**
   * An aligned free run that ends right at frame_end is refused when it is not
   * the first candidate: here frame 2 is free, managed and aligned, and the
   * search for one page finds nothing.
   */
  lemma WindowAtTheEndRefused()
    ensures FreeRun({1}, 3, 2, 1) && Multiple(2, 1) == 2
    ensures forall k: nat :: !AlignedFit({1}, 3, k, 1, 1)
  {
    MultipleOfOne(2);
    forall k: nat
      ensures !AlignedFit({1}, 3, k, 1, 1)
    {
      MultipleOfOne(k);
      if k == 1 {
        assert 1 in {1};
      }
    }
  }

  /** The number of frames alloc and free compute for n bytes, in 64-bit arithmetic. */
  function NumFrames(n: nat): nat
    requires n < WORD_LIMIT
  {
    (n + PAGE_SIZE - 1) % WORD_LIMIT / PAGE_SIZE
  }

  /**
   * The rounded-up frames hold the requested bytes exactly when the rounding
   * does not wrap; past that point, and for n = 0, the count is zero.
   */
  lemma RoundingHolds(n: nat)
    requires n < WORD_LIMIT
    ensures NumFrames(n) * PAGE_SIZE >= n <==> n <= WORD_LIMIT - PAGE_SIZE
    ensures NumFrames(n) == 0 <==> n == 0 || n > WORD_LIMIT - PAGE_SIZE
    ensures n <= WORD_LIMIT - PAGE_SIZE ==> NumFrames(n) * PAGE_SIZE < n + PAGE_SIZE
  {
  }

  // ---------------------------------------------------------------- the memory map

  /** The fields of EFI_MEMORY_DESCRIPTOR that initialisation reads. */
  datatype Descriptor = Descriptor(kind: nat, physicalStart: nat, numberOfPages: nat)

  const EFI_BOOT_SERVICES_CODE := 3
  const EFI_CONVENTIONAL_MEMORY := 7
  const MAX_RESERVED_REGIONS := 1024

  predicate IsUsable(d: Descriptor) {
    d.kind == EFI_CONVENTIONAL_MEMORY || d.kind == EFI_BOOT_SERVICES_CODE
  }

  function EndOf(d: Descriptor): nat {
    d.physicalStart + d.numberOfPages * PAGE_SIZE
  }

  /** Ascending, disjoint, page-aligned, no empty descriptor, inside 64 bits. */
  ghost predicate WellFormedMap(descriptors: seq<Descriptor>) {
    && (forall i | 0 <= i < |descriptors| ::
          && descriptors[i].physicalStart % PAGE_SIZE == 0
          && descriptors[i].numberOfPages > 0
          && EndOf(descriptors[i]) < WORD_LIMIT)
    && (forall i, j | 0 <= i < j < |descriptors| :: EndOf(descriptors[i]) <= descriptors[j].physicalStart)
  }

  ghost predicate InDescriptor(d: Descriptor, f: nat) {
    d.physicalStart <= f * PAGE_SIZE < EndOf(d)
  }

  /** The frame belongs to conventional memory, type 7, or to the code of the boot services, type 3. */
  ghost predicate InUsable(descriptors: seq<Descriptor>, f: nat) {
    exists i :: 0 <= i < |descriptors| && descriptors[i].kind in {3, 7} && InDescriptor(descriptors[i], f)
  }

  /**
   * How many regions the map makes initialisation reserve when it has reached
   * `physEnd`: one for each hole and one for each unusable descriptor, the last
   * one being what meets the limit of managed memory.
   */
  ghost function ReservedCount(descriptors: seq<Descriptor>, physEnd: nat, limit: nat): nat {
    if descriptors == [] then
      0
    else
      var d := descriptors[0];
      if physEnd < d.physicalStart && d.physicalStart >= limit then
        1
      else
        (if physEnd < d.physicalStart then 1 else 0)
        + if EndOf(d) >= limit then
            1
          else
            (if IsUsable(d) then 0 else 1) + ReservedCount(descriptors[1..], EndOf(d), limit)
  }

  /** Where the descriptor before the i-th ends. */
  function EndBefore(descriptors: seq<Descriptor>, i: nat): nat
    requires i <= |descriptors|
  {
    if i == 0 then 0 else EndOf(descriptors[i - 1])
  }

  /**
   * The regions to reserve from descriptor i on: every hole and every descriptor
   * that begins below the limit, but for usable descriptors that also end below it.
   */
  function RegionsNeeded(descriptors: seq<Descriptor>, i: nat, limit: nat): nat
    requires i <= |descriptors|
    decreases |descriptors| - i
  {
    if i == |descriptors| then 0
    else
      var d, before := descriptors[i], EndBefore(descriptors, i);
      (if before < d.physicalStart && before < limit then 1 else 0)
      + (if d.physicalStart < limit && !(d.kind in {3, 7} && EndOf(d) < limit) then 1 else 0)
      + RegionsNeeded(descriptors, i + 1, limit)
  }

  /** The walk reserves one region for each of them, and stops where no more are to come. */
  lemma {:induction false} CountIsNeeded(descriptors: seq<Descriptor>, i: nat, limit: nat)
    requires WellFormedMap(descriptors) && i <= |descriptors|
    ensures EndBefore(descriptors, i) < limit ==>
              ReservedCount(descriptors[i..], EndBefore(descriptors, i), limit) == RegionsNeeded(descriptors, i, limit)
    ensures EndBefore(descriptors, i) >= limit ==> RegionsNeeded(descriptors, i, limit) == 0
    decreases |descriptors| - i
  {
    if i < |descriptors| {
      CountIsNeeded(descriptors, i + 1, limit);
      assert descriptors[i..][0] == descriptors[i] && descriptors[i..][1..] == descriptors[i + 1..];
      assert i > 0 ==> EndOf(descriptors[i - 1]) <= descriptors[i].physicalStart;
    }
  }

  // ---------------------------------------------------------------- the allocator

  class Allocator {
    /** bitmap: one bit per frame. */
    const bitmap: array<Word>
    /** The first reserved_region_count entries of reserved_regions. */
    var reserved: seq<Region>
    var frameEnd: nat

    ghost var used: set<nat>
    /** Blocks handed out and not yet freed. */
    ghost var live: set<Region>

    /** The bitmap is well-formed and reserved frames are used. */
    ghost predicate Shape()
      reads this, bitmap
    {
      && bitmap.Length <= 0x8_0000
      && Mirrors(bitmap[..], used)
      && frameEnd <= 64 * bitmap.Length
      && (forall i | 0 <= i < |reserved| :: reserved[i].numFrames > 0)
      && (forall f: nat | Covered(reserved, f) :: f in used)
    }

    /**
     * Below frame_end, the used frames are the reserved ones together with the
     * live blocks; blocks are non-empty, inside [1, frame_end), pairwise
     * disjoint and clear of every reserved region.
     */
    ghost predicate Valid()
      reads this, bitmap
    {
      && Shape()
      && (forall f: nat | f < frameEnd :: f in used <==> Covered(reserved, f) || InBlock(live, f))
      && (forall b | b in live :: 1 <= b.frame && b.numFrames > 0 && b.frame + b.numFrames <= frameEnd)
      && (forall b, c | b in live && c in live && b != c :: Apart(b, c))
      && (forall b, i | b in live && 0 <= i < |reserved| :: Apart(b, reserved[i]))
    }

    constructor (numLines: nat)
      requires numLines <= 0x8_0000
      ensures Valid() && fresh(bitmap) && bitmap.Length == numLines
      ensures used == {} && live == {} && reserved == [] && frameEnd == 0
    {
      bitmap := new Word[numLines](_ => Zero());
      reserved, frameEnd := [], 0;
      used, live := {}, {};
    }

    method FrameStatusAt(frame: nat) returns (isUsed: bool)
      requires Shape() && frame < 64 * bitmap.Length
      ensures isUsed <==> frame in used
    {
      var word := And(bitmap[frame / 64], ToBit(frame % 64));
      isUsed := word != Zero();
      TestedBit(bitmap[frame / 64], frame % 64);
      assert bitmap[..][frame / 64][frame % 64] <==> 64 * (frame / 64) + frame % 64 in used;
    }

    method SetFrameStatus(frame: nat, isUsed: bool)
      requires Mirrors(bitmap[..], used) && frame < 64 * bitmap.Length
      modifies this`used, bitmap
      ensures Mirrors(bitmap[..], used)
      ensures used == if isUsed then old(used) + {frame} else old(used) - {frame}
    {
      var line, bit := bitmap[frame / 64], ToBit(frame % 64);
      bitmap[frame / 64] := if isUsed then Or(line, bit) else And(line, Not(bit));
      used := if isUsed then used + {frame} else used - {frame};
    }

    method MarkAllocated(frame: nat, numFrames: nat)
      requires Mirrors(bitmap[..], used) && frame + numFrames <= 64 * bitmap.Length
      modifies this`used, bitmap
      ensures Mirrors(bitmap[..], used)
      ensures used == old(used) + Frames(Region(frame, numFrames))
    {
      for i := 0 to numFrames
        invariant Mirrors(bitmap[..], used)
        invariant used == old(used) + Frames(Region(frame, i))
      {
        SetFrameStatus(frame + i, true);
      }
    }

    method MarkNotUsed(frame: nat, numFrames: nat)
      requires Mirrors(bitmap[..], used) && frame + numFrames <= 64 * bitmap.Length
      modifies this`used, bitmap
      ensures Mirrors(bitmap[..], used)
      ensures used == old(used) - Frames(Region(frame, numFrames))
    {
      for i := 0 to numFrames
        invariant Mirrors(bitmap[..], used)
        invariant used == old(used) - Frames(Region(frame, i))
      {
        SetFrameStatus(frame + i, false);
      }
    }

    // -------------------------------------------------------------- searching

    /** The inner loop of both searches: how many frames from `start` are free, up to numFrames. */
    method CountFree(start: nat, numFrames: nat) returns (i: nat, past: bool)
      requires Shape()
      ensures i <= numFrames && (forall f | start <= f < start + i :: f !in used)
      ensures i == 0 || start + i <= frameEnd
      ensures past ==> i < numFrames && start + i >= frameEnd
      ensures !past && i < numFrames ==> start + i < frameEnd && start + i in used
    {
      i, past := 0, false;
      while i < numFrames
        invariant i <= numFrames && (i == 0 || start + i <= frameEnd)
        invariant forall f | start <= f < start + i :: f !in used
      {
        if start + i >= frameEnd {
          return i, true;
        }
        var isUsed := FrameStatusAt(start + i);
        if isUsed {
          return;
        }
        i := i + 1;
      }
    }

    /** The loop of alloc: the least fitting start, or none when nothing fits. */
    method FirstFit(numFrames: nat) returns (found: bool, start: nat)
      requires Shape()
      ensures numFrames == 0 ==> found && start == 1
      ensures numFrames > 0 && found ==> start >= 1 && FreeRun(used, frameEnd, start, numFrames)
      ensures numFrames > 0 && found ==> forall s | 1 <= s < start :: !FreeRun(used, frameEnd, s, numFrames)
      ensures !found ==> forall s | s >= 1 :: !FreeRun(used, frameEnd, s, numFrames)
    {
      start := 1;
      while true
        invariant start >= 1 && (numFrames == 0 ==> start == 1)
        invariant numFrames > 0 ==> forall s | 1 <= s < start :: !FreeRun(used, frameEnd, s, numFrames)
        decreases frameEnd - start
      {
        var i, past := CountFree(start, numFrames);
        if past {
          return false, 0;
        }
        if i == numFrames {
          return true, start;
        }
        start := start + i + 1;
      }
    }

    /** The loop of alloc_aligned_pages: the least accepted multiple of the alignment, or none. */
    method AlignedSearch(numFrames: nat, align: nat) returns (found: bool, start: nat, ghost k: nat)
      requires Shape() && numFrames < WORD_LIMIT && align > 0
      ensures numFrames == 0 ==> found && start == align
      ensures found ==> start == Multiple(k, align) && k >= 1
      ensures numFrames > 0 && found ==> AlignedFit(used, frameEnd, k, numFrames, align)
      ensures numFrames > 0 && found ==>
                forall j | 0 <= j < k :: !AlignedFit(used, frameEnd, j, numFrames, align)
      ensures numFrames > 0 && found ==>
                forall j | 1 <= j < k :: !FreeRun(used, frameEnd, Multiple(j, align), numFrames)
      ensures !found ==> forall j: nat :: !AlignedFit(used, frameEnd, j, numFrames, align)
      ensures !found ==> forall j: nat | j >= 1 && FreeRun(used, frameEnd, Multiple(j, align), numFrames) ::
                j >= 2 && Multiple(j, align) + numFrames == frameEnd
    {
      hide Mirrors, Covered;
      start, k := align, 1;
      while true
        invariant k >= 1 && start == Multiple(k, align) && (numFrames == 0 ==> k == 1)
        invariant k > 1 ==> (start + numFrames) % WORD_LIMIT < frameEnd
        invariant numFrames > 0 ==> forall j | 0 <= j < k :: !AlignedFit(used, frameEnd, j, numFrames, align)
        decreases frameEnd - start
      {
        var i, past := CountFree(start, numFrames);
        if past {
          NoLaterFit(k, numFrames, align);
          OnlyAtTheEnd(used, frameEnd, numFrames, align);
          return false, 0, 0;
        }
        if i == numFrames {
          assert k > 1 ==> start + numFrames < frameEnd;
          if numFrames > 0 {
            LeastOfAll(used, frameEnd, k, numFrames, align);
          }
          return true, start, k;
        }
        start, k := start + align, k + 1;
        if (start + numFrames) % WORD_LIMIT >= frameEnd {
          NoLaterFit(k, numFrames, align);
          OnlyAtTheEnd(used, frameEnd, numFrames, align);
          return false, 0, 0;
        }
      }
    }

    // -------------------------------------------------------------- the operations

    /** A block of unused managed frames can be added to the live ones. */
    method Take(block: Region)
      requires Valid() && block.frame >= 1 && block.numFrames > 0
      requires FreeRun(used, frameEnd, block.frame, block.numFrames)
      modifies this`used, this`live, bitmap
      ensures Valid()
      ensures used == old(used) + Frames(block) && live == old(live) + {block} && block !in old(live)
    {
      forall b | b in live
        ensures Apart(b, block)
      {
        forall f | Within(b, f)
          ensures f in used
        {
          assert InBlock(live, f);
        }
        ApartFromUnused(b, block, used);
      }
      forall i | 0 <= i < |reserved|
        ensures Apart(reserved[i], block)
      {
        forall f | Within(reserved[i], f)
          ensures f in used
        {
          assert Covered(reserved, f);
        }
        ApartFromUnused(reserved[i], block, used);
      }
      MarkAllocated(block.frame, block.numFrames);
      live := live + {block};
      forall f: nat | f < frameEnd
        ensures f in used <==> Covered(reserved, f) || InBlock(live, f)
      {
        assert f in Frames(block) <==> Within(block, f);
        if Within(block, f) {
          assert block in live;
        } else if InBlock(old(live), f) {
          var b :| b in old(live) && Within(b, f);
          assert b in live;
        }
      }
    }

    /**
     * Allocate n bytes, rounded up to frames. The block is the first fit; NULL
     * (0) is returned only when no run fits. A request that rounds to zero
     * frames gets the first frame's address and reserves nothing.
     */
    method Alloc(n: nat, reconstructed: bool) returns (ptr: nat, ghost block: Region)
      requires Valid() && n < WORD_LIMIT
      modifies this`used, this`live, bitmap
      ensures Valid()
      ensures block.numFrames == NumFrames(n)
      ensures NumFrames(n) == 0 ==> ptr == Phys2Virt(reconstructed, PAGE_SIZE)
      ensures ptr == 0 <==> NumFrames(n) > 0 && forall s | s >= 1 :: !FreeRun(old(used), frameEnd, s, NumFrames(n))
      ensures ptr == 0 || NumFrames(n) == 0 ==> used == old(used) && live == old(live)
      ensures ptr != 0 && NumFrames(n) > 0 ==>
                && block.frame >= 1 && FreeRun(old(used), frameEnd, block.frame, block.numFrames)
                && ptr == Phys2Virt(reconstructed, block.frame * PAGE_SIZE)
                && (forall s | 1 <= s < block.frame :: !FreeRun(old(used), frameEnd, s, block.numFrames))
                && used == old(used) + Frames(block) && live == old(live) + {block} && block !in old(live)
    {
      var numFrames := NumFrames(n);
      var found, start := FirstFit(numFrames);
      block := Region(start, numFrames);
      if !found {
        return 0, block;
      }
      if numFrames > 0 {
        Take(Region(start, numFrames));
      }
      ConversionRoundTrip(reconstructed, reconstructed, start * PAGE_SIZE);
      ptr := Phys2Virt(reconstructed, start * PAGE_SIZE);
    }

    /**
     * Allocate physically contiguous pages at a multiple of the alignment. The
     * source demands a non-zero alignment: with 0 its search never advances.
     */
    method AllocAlignedPages(numPages: nat, alignSize: nat, reconstructed: bool)
      returns (ptr: nat, ghost block: Region)
      requires Valid() && numPages < WORD_LIMIT && 0 < alignSize < WORD_LIMIT
      modifies this`used, this`live, bitmap
      ensures Valid()
      ensures block.numFrames == numPages
      ensures alignSize % PAGE_SIZE != 0 ==> ptr == 0
      ensures ptr == 0 || numPages == 0 ==> used == old(used) && live == old(live)
      ensures ptr == 0 && alignSize % PAGE_SIZE == 0 && numPages > 0 ==>
                forall k: nat :: !AlignedFit(old(used), frameEnd, k, numPages, alignSize / PAGE_SIZE)
      ensures ptr != 0 && numPages > 0 ==>
                && block.frame >= 1 && FreeRun(old(used), frameEnd, block.frame, block.numFrames)
                && ptr == Phys2Virt(reconstructed, block.frame * PAGE_SIZE)
                && IsLeastAligned(old(used), frameEnd, block, alignSize / PAGE_SIZE)
                && used == old(used) + Frames(block) && live == old(live) + {block} && block !in old(live)
    {
      if alignSize % PAGE_SIZE != 0 {
        return 0, Region(0, numPages);
      }
      var alignFrame := (alignSize + PAGE_SIZE - 1) / PAGE_SIZE;
      assert alignFrame == alignSize / PAGE_SIZE;
      ghost var k;
      var found, start;
      found, start, k := AlignedSearch(numPages, alignFrame);
      block := Region(start, numPages);
      if !found {
        return 0, block;
      }
      if numPages > 0 {
        MultiplesAscend(1, k, alignFrame);
        assert AlignedFit(used, frameEnd, k, numPages, alignFrame);
        Take(Region(start, numPages));
        ConversionRoundTrip(reconstructed, reconstructed, start * PAGE_SIZE);
      }
      ptr := Phys2Virt(reconstructed, start * PAGE_SIZE);
    }

    /**
     * overlaps_reserved. For regions that are not empty it tells whether a frame
     * is shared; an empty one overlaps a region exactly when it lies strictly
     * inside it.
     */
    method OverlapsReserved(r: Region) returns (overlap: bool)
      ensures overlap <==> exists i :: 0 <= i < |reserved| && Overlap(r, reserved[i])
      ensures r.numFrames > 0 && (forall i | 0 <= i < |reserved| :: reserved[i].numFrames > 0) ==>
                (overlap <==> exists f :: Within(r, f) && Covered(reserved, f))
    {
      SharedFrames(reserved, r);
      for i := 0 to |reserved|
        invariant forall j | 0 <= j < i :: !Overlap(r, reserved[j])
      {
        if Overlap(r, reserved[i]) {
          return true;
        }
      }
      return false;
    }

    /**
     * Free n bytes at a pointer; panics when the frames meet a reserved region.
     * Whatever the caller passes, reserved frames stay used. Freeing a live block
     * never panics, and gives back exactly its frames.
     */
    method Free(ptr: nat, n: nat, reconstructed: bool) returns (panicked: bool)
      requires Shape() && ptr < WORD_LIMIT && n < WORD_LIMIT
      requires FreedRegion(ptr, n, reconstructed).frame + NumFrames(n) <= 64 * bitmap.Length
      modifies this`used, this`live, bitmap
      ensures Shape()
      ensures panicked <==> exists i :: 0 <= i < |reserved| && Overlap(FreedRegion(ptr, n, reconstructed), reserved[i])
      ensures panicked ==> used == old(used) && live == old(live)
      ensures !panicked ==> used == old(used) - Frames(FreedRegion(ptr, n, reconstructed))
      ensures !panicked ==> live == old(live) - {FreedRegion(ptr, n, reconstructed)}
      ensures old(Valid()) && FreedRegion(ptr, n, reconstructed) in old(live) ==> !panicked && Valid()
    {
      var r := FreedRegion(ptr, n, reconstructed);
      assert Valid() && r in live ==> forall i | 0 <= i < |reserved| :: !Overlap(r, reserved[i]);
      panicked := OverlapsReserved(r);
      if !panicked {
        MarkNotUsed(r.frame, r.numFrames);
        live := live - {r};
        forall f: nat | Covered(reserved, f)
          ensures f in used
        {
          var i :| 0 <= i < |reserved| && Within(reserved[i], f);
          assert !Overlap(r, reserved[i]);
          assert f in Frames(r) <==> Within(r, f);
        }
        if old(Valid()) && r in old(live) {
          forall f: nat | f < frameEnd
            ensures f in used <==> Covered(reserved, f) || InBlock(live, f)
          {
            assert f in Frames(r) <==> Within(r, f);
            Released(old(live), r, f);
          }
        }
      }
    }

    /** Freeing a block right after allocating it restores the bitmap word for word. */
    method AllocThenFree(n: nat, reconstructed: bool) returns (ptr: nat)
      requires Valid() && 0 < n <= WORD_LIMIT - PAGE_SIZE
      modifies this`used, this`live, bitmap
      ensures Valid() && bitmap[..] == old(bitmap[..]) && live == old(live)
    {
      ghost var block;
      RoundingHolds(n);
      ptr, block := Alloc(n, reconstructed);
      if ptr != 0 {
        ConversionRoundTrip(reconstructed, reconstructed, block.frame * PAGE_SIZE);
        assert FreedRegion(ptr, n, reconstructed) == block;
        var panicked := Free(ptr, n, reconstructed);
        assert forall f | f in Frames(block) :: Within(block, f);
        assert used == old(used);
      }
      MirrorsUnique(bitmap[..], old(bitmap[..]), used);
    }

    lemma NoLaterFit(k: nat, numFrames: nat, align: nat)
      requires k >= 1 && align > 0
      requires Multiple(k, align) + numFrames > frameEnd || (k > 1 && Multiple(k, align) + numFrames >= frameEnd)
      ensures forall j | j >= k :: !AlignedFit(used, frameEnd, j, numFrames, align)
    {
      forall j | j >= k
        ensures !AlignedFit(used, frameEnd, j, numFrames, align)
      {
        MultiplesAscend(k, j, align);
      }
    }

    // -------------------------------------------------------------- initialisation

    /** mark_uefi_reserved, which panics once the region table is full. */
    method MarkReserved(r: Region) returns (panicked: bool)
      requires Shape() && r.frame + r.numFrames <= 64 * bitmap.Length && r.numFrames > 0
      modifies this`used, this`reserved, bitmap
      ensures panicked <==> |old(reserved)| >= MAX_RESERVED_REGIONS
      ensures !panicked ==> Shape() && reserved == old(reserved) + [r] && used == old(used) + Frames(r)
      ensures !panicked ==> forall f :: Covered(reserved, f) <==> Covered(old(reserved), f) || Within(r, f)
    {
      MarkAllocated(r.frame, r.numFrames);
      if |reserved| >= MAX_RESERVED_REGIONS {
        return true;
      }
      ghost var before := reserved;
      reserved := reserved + [r];
      forall f
        ensures Covered(reserved, f) <==> Covered(before, f) || Within(r, f)
      {
        CoveredByOneMore(before, r, f);
      }
      assert forall f | Within(r, f) :: f in Frames(r);
      return false;
    }

    /** Nothing below `end` but the map's usable memory is unused, and nothing above it is marked. */
    ghost predicate Classified(descriptors: seq<Descriptor>, end: nat)
      reads this
    {
      && (forall f: nat | f < end :: f in used <==> !InUsable(descriptors, f))
      && (forall f: nat | f < end :: f in used <==> Covered(reserved, f))
      && (forall f: nat | f >= end :: f !in used && !Covered(reserved, f))
    }

    /** Reserving the next run of frames, none of them usable, moves the classified end past it. */
    method ReserveNext(ghost descriptors: seq<Descriptor>, r: Region) returns (panicked: bool)
      requires Shape() && r.frame + r.numFrames <= 64 * bitmap.Length && r.numFrames > 0
      requires Classified(descriptors, r.frame)
      requires forall f | Within(r, f) :: !InUsable(descriptors, f)
      modifies this`used, this`reserved, bitmap
      ensures panicked <==> |old(reserved)| >= MAX_RESERVED_REGIONS
      ensures !panicked ==> Shape() && |reserved| == |old(reserved)| + 1
      ensures !panicked ==> Classified(descriptors, r.frame + r.numFrames)
    {
      panicked := MarkReserved(r);
      if !panicked {
        assert forall f: nat :: f in used <==> f in old(used) || Within(r, f);
      }
    }

    /** What holds once the first i descriptors are processed. */
    ghost predicate Progress(descriptors: seq<Descriptor>, i: nat, physEnd: nat, availEnd: nat)
      requires i <= |descriptors|
      reads this, bitmap
    {
      && Shape() && live == {} && frameEnd == 0
      && physEnd % PAGE_SIZE == 0 && physEnd < Limit()
      && Reached(descriptors, i, physEnd)
      && Classified(descriptors, physEnd / PAGE_SIZE)
      && AvailableEnd(descriptors, i, availEnd) && availEnd <= physEnd
    }

    /** What holds when the walk over the map has ended. */
    ghost predicate Finished(descriptors: seq<Descriptor>, availEnd: nat)
      reads this, bitmap
    {
      && Shape() && live == {}
      && availEnd < Limit()
      && (forall f: nat | f < availEnd / PAGE_SIZE :: f in used <==> !InUsable(descriptors, f))
      && (forall f: nat | f < availEnd / PAGE_SIZE :: f in used <==> Covered(reserved, f))
      && AvailableEnd(descriptors, 0, availEnd)
      && (forall j | 0 <= j < |descriptors| ::
            IsUsable(descriptors[j]) && EndOf(descriptors[j]) < Limit() ==> EndOf(descriptors[j]) <= availEnd)
    }

    /** The end of managed memory, MAX_PHYSICAL_SIZE in the source. */
    function Limit(): nat {
      64 * bitmap.Length * PAGE_SIZE
    }

    /** The part of the loop body that reserves the hole before descriptor i. */
    method ReserveHole(descriptors: seq<Descriptor>, i: nat, physEnd: nat, ghost availEnd: nat)
      returns (panicked: bool, stop: bool)
      requires WellFormedMap(descriptors) && i < |descriptors| && Progress(descriptors, i, physEnd, availEnd)
      modifies this`used, this`reserved, bitmap
      ensures panicked <==> physEnd < descriptors[i].physicalStart && |old(reserved)| >= MAX_RESERVED_REGIONS
      ensures !panicked ==> |reserved| == |old(reserved)| + if physEnd < descriptors[i].physicalStart then 1 else 0
      ensures !panicked ==>
                (stop <==> physEnd < descriptors[i].physicalStart && descriptors[i].physicalStart >= Limit())
      ensures !panicked && stop ==> Finished(descriptors, availEnd)
      ensures !panicked && !stop ==>
                Progress(descriptors, i, descriptors[i].physicalStart, availEnd)
    {
      hide InUsable, Covered, Mirrors;
      var d := descriptors[i];
      panicked, stop := false, false;
      if physEnd < d.physicalStart {
        HoleIsUnusable(descriptors, i, physEnd);
        stop := d.physicalStart >= Limit();
        var end := if stop then Limit() else d.physicalStart;
        panicked := ReserveNext(descriptors, Region(physEnd / PAGE_SIZE, (end - physEnd) / PAGE_SIZE));
      }
    }

    /** A descriptor that meets the limit: reserved up to there, and the walk is over. */
    method CutOff(descriptors: seq<Descriptor>, i: nat, ghost availEnd: nat) returns (panicked: bool)
      requires WellFormedMap(descriptors) && i < |descriptors| && EndOf(descriptors[i]) >= Limit()
      requires Progress(descriptors, i, descriptors[i].physicalStart, availEnd)
      modifies this`used, this`reserved, bitmap
      ensures panicked <==> |old(reserved)| >= MAX_RESERVED_REGIONS
      ensures !panicked ==> |reserved| == |old(reserved)| + 1 && Finished(descriptors, availEnd)
    {
      hide InUsable, Covered, Mirrors;
      var start := descriptors[i].physicalStart;
      panicked := MarkReserved(Region(start / PAGE_SIZE, (Limit() - start) / PAGE_SIZE));
    }

    /** A usable descriptor: marked as not used. */
    method Release(descriptors: seq<Descriptor>, i: nat, ghost availEnd: nat)
      requires WellFormedMap(descriptors) && i < |descriptors|
      requires EndOf(descriptors[i]) < Limit() && IsUsable(descriptors[i])
      requires Progress(descriptors, i, descriptors[i].physicalStart, availEnd)
      modifies this`used, bitmap
      ensures Progress(descriptors, i + 1, EndOf(descriptors[i]), EndOf(descriptors[i]))
    {
      hide InUsable, Covered, Mirrors;
      var d := descriptors[i];
      DescriptorDecides(descriptors, i);
      MarkNotUsed(d.physicalStart / PAGE_SIZE, d.numberOfPages);
    }

    /** Any other descriptor: reserved. */
    method ReserveDescriptor(descriptors: seq<Descriptor>, i: nat, ghost availEnd: nat) returns (panicked: bool)
      requires WellFormedMap(descriptors) && i < |descriptors|
      requires EndOf(descriptors[i]) < Limit() && !IsUsable(descriptors[i])
      requires Progress(descriptors, i, descriptors[i].physicalStart, availEnd)
      modifies this`used, this`reserved, bitmap
      ensures panicked <==> |old(reserved)| >= MAX_RESERVED_REGIONS
      ensures !panicked ==> |reserved| == |old(reserved)| + 1
      ensures !panicked ==> Progress(descriptors, i + 1, EndOf(descriptors[i]), availEnd)
    {
      hide InUsable, Covered, Mirrors;
      var d := descriptors[i];
      DescriptorDecides(descriptors, i);
      panicked := ReserveNext(descriptors, Region(d.physicalStart / PAGE_SIZE, d.numberOfPages));
    }

    /** The part of the loop body that classifies descriptor i itself. */
    method ClassifyDescriptor(descriptors: seq<Descriptor>, i: nat, availEnd: nat)
      returns (panicked: bool, stop: bool, availEnd': nat)
      requires WellFormedMap(descriptors) && i < |descriptors|
      requires Progress(descriptors, i, descriptors[i].physicalStart, availEnd)
      modifies this`used, this`reserved, bitmap
      ensures panicked <==> NeedsRegion(descriptors[i], Limit()) && |old(reserved)| >= MAX_RESERVED_REGIONS
      ensures !panicked ==> |reserved| == |old(reserved)| + if NeedsRegion(descriptors[i], Limit()) then 1 else 0
      ensures !panicked ==> (stop <==> EndOf(descriptors[i]) >= Limit())
      ensures !panicked && stop ==> availEnd' == availEnd && Finished(descriptors, availEnd)
      ensures !panicked && !stop ==> Progress(descriptors, i + 1, EndOf(descriptors[i]), availEnd')
    {
      hide Progress, Finished, EndOf, WellFormedMap;
      var d := descriptors[i];
      panicked, stop, availEnd' := false, false, availEnd;
      if EndOf(d) >= Limit() {
        stop := true;
        panicked := CutOff(descriptors, i, availEnd);
      } else if IsUsable(d) {
        availEnd' := EndOf(d);
        Release(descriptors, i, availEnd);
      } else {
        panicked := ReserveDescriptor(descriptors, i, availEnd);
      }
    }

    /** One iteration of the loop over the descriptors; `stop` is its break. */
    method ProcessDescriptor(descriptors: seq<Descriptor>, i: nat, physEnd: nat, availEnd: nat)
      returns (panicked: bool, stop: bool, physEnd': nat, availEnd': nat)
      requires WellFormedMap(descriptors) && i < |descriptors| && Progress(descriptors, i, physEnd, availEnd)
      requires |reserved| <= MAX_RESERVED_REGIONS
      modifies this`used, this`reserved, bitmap
      ensures panicked ==>
                |old(reserved)| + ReservedCount(descriptors[i..], physEnd, Limit()) > MAX_RESERVED_REGIONS
      ensures !panicked ==> |reserved| <= MAX_RESERVED_REGIONS
      ensures !panicked && stop ==>
                && |reserved| == |old(reserved)| + ReservedCount(descriptors[i..], physEnd, Limit())
                && Finished(descriptors, availEnd')
      ensures !panicked && !stop ==>
                && |reserved| + ReservedCount(descriptors[i + 1..], physEnd', Limit())
                   == |old(reserved)| + ReservedCount(descriptors[i..], physEnd, Limit())
                && Progress(descriptors, i + 1, physEnd', availEnd')
    {
      CountStep(descriptors, i, physEnd, Limit());
      CountStep(descriptors, i, descriptors[i].physicalStart, Limit());
      physEnd', availEnd' := physEnd, availEnd;
      panicked, stop := ReserveHole(descriptors, i, physEnd, availEnd);
      if !panicked && !stop {
        physEnd' := EndOf(descriptors[i]);
        panicked, stop, availEnd' := ClassifyDescriptor(descriptors, i, availEnd);
      }
    }

    /** The loop over the descriptors. */
    method WalkMap(descriptors: seq<Descriptor>) returns (panicked: bool, availEnd: nat)
      requires WellFormedMap(descriptors) && Progress(descriptors, 0, 0, 0) && reserved == []
      modifies this`used, this`reserved, bitmap
      ensures panicked <==> ReservedCount(descriptors, 0, Limit()) > MAX_RESERVED_REGIONS
      ensures !panicked ==> Finished(descriptors, availEnd)
    {
      var physEnd: nat, i: nat, stop := 0, 0, false;
      availEnd := 0;
      assert descriptors[0..] == descriptors;
      while i < |descriptors|
        invariant i <= |descriptors| && Progress(descriptors, i, physEnd, availEnd)
        invariant |reserved| <= MAX_RESERVED_REGIONS
        invariant |reserved| + ReservedCount(descriptors[i..], physEnd, Limit())
                  == ReservedCount(descriptors, 0, Limit())
      {
        panicked, stop, physEnd, availEnd := ProcessDescriptor(descriptors, i, physEnd, availEnd);
        if panicked || stop {
          return;
        }
        i := i + 1;
      }
      MapExhausted(descriptors, physEnd, availEnd);
      panicked := false;
    }

    lemma MapExhausted(descriptors: seq<Descriptor>, physEnd: nat, availEnd: nat)
      requires Progress(descriptors, |descriptors|, physEnd, availEnd)
      ensures Finished(descriptors, availEnd)
    {
    }

    /**
     * page_allocator_init on the zero-initialised state: below frame_end a frame
     * is used iff it lies in a hole or an unusable descriptor, iff it lies in a
     * recorded reserved region; it panics iff the map needs too many regions.
     */
    method Init(descriptors: seq<Descriptor>) returns (panicked: bool)
      requires Valid() && used == {} && live == {} && reserved == [] && frameEnd == 0 && bitmap.Length > 0
      requires WellFormedMap(descriptors)
      modifies this, bitmap
      ensures panicked <==> RegionsNeeded(descriptors, 0, Limit()) > 1024
      ensures !panicked ==> Valid() && live == {}
      ensures !panicked ==> forall f: nat | f < frameEnd :: f in used <==> !InUsable(descriptors, f)
      ensures !panicked ==> forall f: nat | f < frameEnd :: f in used <==> Covered(reserved, f)
      ensures !panicked ==> frameEnd == 0 || InUsable(descriptors, frameEnd - 1)
      ensures !panicked ==> forall i | 0 <= i < |descriptors| ::
                              descriptors[i].kind in {3, 7} && EndOf(descriptors[i]) < Limit()
                              ==> EndOf(descriptors[i]) <= frameEnd * PAGE_SIZE
    {
      var availEnd;
      CountIsNeeded(descriptors, 0, Limit());
      assert descriptors[0..] == descriptors;
      panicked, availEnd := WalkMap(descriptors);
      if !panicked {
        frameEnd := availEnd / PAGE_SIZE;
      }
    }
  }

  /** `availEnd` is 0 or the end of a usable descriptor, at or past those among the first i. */
  ghost predicate AvailableEnd(descriptors: seq<Descriptor>, i: nat, availEnd: nat)
    requires i <= |descriptors|
  {
    && availEnd % PAGE_SIZE == 0
    && (availEnd == 0 || (availEnd >= PAGE_SIZE && InUsable(descriptors, availEnd / PAGE_SIZE - 1)))
    && (forall j | 0 <= j < i && IsUsable(descriptors[j]) :: EndOf(descriptors[j]) <= availEnd)
  }

  /** A descriptor is recorded as reserved when it is unusable or meets the limit. */
  predicate NeedsRegion(d: Descriptor, limit: nat) {
    EndOf(d) >= limit || !IsUsable(d)
  }

  /** The first i descriptors end at or before `physEnd`, the others start there or later. */
  ghost predicate Reached(descriptors: seq<Descriptor>, i: nat, physEnd: nat)
    requires i <= |descriptors|
  {
    && (forall j | 0 <= j < i :: EndOf(descriptors[j]) <= physEnd)
    && (forall j | i <= j < |descriptors| :: physEnd <= descriptors[j].physicalStart)
  }

  /** Reserving a hole, then deciding a descriptor, each account for their own region. */
  lemma CountStep(descriptors: seq<Descriptor>, i: nat, physEnd: nat, limit: nat)
    requires i < |descriptors| && physEnd <= descriptors[i].physicalStart
    ensures var d := descriptors[i];
            var rest := ReservedCount(descriptors[i..], physEnd, limit);
            if physEnd < d.physicalStart then
              rest == if d.physicalStart >= limit then 1
                      else 1 + ReservedCount(descriptors[i..], d.physicalStart, limit)
            else
              rest == if EndOf(d) >= limit then 1
                      else (if IsUsable(d) then 0 else 1) + ReservedCount(descriptors[i + 1..], EndOf(d), limit)
  {
    assert descriptors[i..][0] == descriptors[i] && descriptors[i..][1..] == descriptors[i + 1..];
  }

  lemma HoleIsUnusable(descriptors: seq<Descriptor>, i: nat, physEnd: nat)
    requires WellFormedMap(descriptors) && i < |descriptors| && Reached(descriptors, i, physEnd)
    requires physEnd % PAGE_SIZE == 0
    ensures forall f | physEnd / PAGE_SIZE <= f < descriptors[i].physicalStart / PAGE_SIZE :: !InUsable(descriptors, f)
  {
    forall f, j | physEnd / PAGE_SIZE <= f < descriptors[i].physicalStart / PAGE_SIZE && 0 <= j < |descriptors|
      ensures !InDescriptor(descriptors[j], f)
    {
      assert j > i ==> EndOf(descriptors[i]) <= descriptors[j].physicalStart;
    }
  }

  /** A frame inside a descriptor is usable iff that descriptor is. */
  lemma DescriptorDecides(descriptors: seq<Descriptor>, i: nat)
    requires WellFormedMap(descriptors) && i < |descriptors|
    ensures forall f | Within(Region(descriptors[i].physicalStart / PAGE_SIZE, descriptors[i].numberOfPages), f) ::
              InUsable(descriptors, f) <==> IsUsable(descriptors[i])
  {
    var d := descriptors[i];
    forall f | Within(Region(d.physicalStart / PAGE_SIZE, d.numberOfPages), f)
      ensures InUsable(descriptors, f) <==> IsUsable(d)
    {
      assert InDescriptor(d, f);
      forall j | 0 <= j < |descriptors| && j != i
        ensures !InDescriptor(descriptors[j], f)
      {
        assert j < i ==> EndOf(descriptors[j]) <= d.physicalStart;
        assert j > i ==> EndOf(d) <= descriptors[j].physicalStart;
      }
    }
  }

  /** Among non-empty regions, overlapping is sharing a frame. */
  lemma SharedFrames(rs: seq<Region>, r: Region)
    ensures r.numFrames > 0 && (forall i | 0 <= i < |rs| :: rs[i].numFrames > 0) ==>
              ((exists i :: 0 <= i < |rs| && Overlap(r, rs[i])) <==> exists f :: Within(r, f) && Covered(rs, f))
  {
    if r.numFrames > 0 && (forall i | 0 <= i < |rs| :: rs[i].numFrames > 0) {
      if i :| 0 <= i < |rs| && Overlap(r, rs[i]) {
        var f := if r.frame < rs[i].frame then rs[i].frame else r.frame;
        assert Within(r, f) && Within(rs[i], f);
      }
      if f :| Within(r, f) && Covered(rs, f) {
        var i :| 0 <= i < |rs| && Within(rs[i], f);
        assert Overlap(r, rs[i]);
      }
    }
  }

  lemma CoveredByOneMore(rs: seq<Region>, r: Region, f: nat)
    ensures Covered(rs + [r], f) <==> Covered(rs, f) || Within(r, f)
  {
    if Covered(rs, f) {
      var i :| 0 <= i < |rs| && Within(rs[i], f);
      assert (rs + [r])[i] == rs[i];
    }
    if Within(r, f) {
      assert (rs + [r])[|rs|] == r;
    }
  }

  lemma ApartFromUnused(r: Region, block: Region, used: set<nat>)
    requires forall f | Within(r, f) :: f in used
    requires forall f | Within(block, f) :: f !in used
    requires r.numFrames > 0 && block.numFrames > 0
    ensures Apart(r, block)
  {
    var f := if r.frame < block.frame then block.frame else r.frame;
    assert Within(r, f) ==> !Within(block, f);
  }

  /** A frame of the blocks that remain is a frame of a block that is not the released one. */
  lemma Released(live: set<Region>, r: Region, f: nat)
    requires r in live && forall b, c | b in live && c in live && b != c :: Apart(b, c)
    ensures InBlock(live - {r}, f) <==> InBlock(live, f) && !Within(r, f)
  {
    if InBlock(live, f) && !Within(r, f) {
      var b :| b in live && Within(b, f);
      assert b in live - {r};
    }
    if InBlock(live - {r}, f) {
      var b :| b in live - {r} && Within(b, f);
      assert Apart(b, r);
    }
  }

  /** The frames free gives back for a pointer and a size. */
  function FreedRegion(ptr: nat, n: nat, reconstructed: bool): Region
    requires ptr < WORD_LIMIT && n < WORD_LIMIT
  {
    Region(Virt2Phys(reconstructed, ptr - ptr % PAGE_SIZE) / PAGE_SIZE, NumFrames(n))
  }

  /** The block starts at the least multiple of the alignment that the aligned search accepts. */
  ghost predicate IsLeastAligned(used: set<nat>, frameEnd: nat, block: Region, align: nat) {
    exists k: nat ::
      && block.frame == Multiple(k, align) && AlignedFit(used, frameEnd, k, block.numFrames, align)
      && (forall j | 0 <= j < k :: !AlignedFit(used, frameEnd, j, block.numFrames, align))
      && forall j | 1 <= j < k :: !FreeRun(used, frameEnd, Multiple(j, align), block.numFrames)
  }

  lemma TestedBit(line: Word, n: nat)
    requires n < 64
    ensures And(line, ToBit(n)) != Zero() <==> line[n]
  {
    assert And(line, ToBit(n))[n] == line[n];
    if !line[n] {
      assert And(line, ToBit(n)) == Zero();
    }
  }

  // ---------------------------------------------------------------- where the searches end

  /** n free frames from s on, as alloc accepts them, or with `strict` as alloc_aligned_pages does. */
  ghost predicate Accepts(used: set<nat>, frameEnd: nat, n: nat, strict: bool, s: nat) {
    s >= 1 && FreeRun(used, frameEnd, s, n) && (strict && s > 1 ==> s + n < frameEnd)
  }

  ghost predicate FirstRun(used: set<nat>, frameEnd: nat, n: nat, strict: bool, s: nat) {
    Accepts(used, frameEnd, n, strict, s) && forall j | 1 <= j < s :: !Accepts(used, frameEnd, n, strict, j)
  }

  ghost predicate NoRun(used: set<nat>, frameEnd: nat, n: nat, strict: bool) {
    forall s: nat :: !Accepts(used, frameEnd, n, strict, s)
  }

  /** The first accepted run, looking from `from` on. */
  ghost function Search(used: set<nat>, frameEnd: nat, n: nat, strict: bool, from: nat): (r: Option<nat>)
    ensures r.Some? ==> from <= r.value && Accepts(used, frameEnd, n, strict, r.value)
    ensures r.Some? ==> forall j | from <= j < r.value :: !Accepts(used, frameEnd, n, strict, j)
    ensures r == None ==> forall j | j >= from :: !Accepts(used, frameEnd, n, strict, j)
    decreases frameEnd - from
  {
    if Accepts(used, frameEnd, n, strict, from) then Some(from)
    else if from > frameEnd then None
    else Search(used, frameEnd, n, strict, from + 1)
  }

  lemma SearchIs(used: set<nat>, frameEnd: nat, n: nat, strict: bool)
    ensures Search(used, frameEnd, n, strict, 1) == None <==> NoRun(used, frameEnd, n, strict)
    ensures forall s: nat :: FirstRun(used, frameEnd, n, strict, s) <==> Search(used, frameEnd, n, strict, 1) == Some(s)
  {
    hide Accepts;
    assert !Accepts(used, frameEnd, n, strict, 0) by { NotFromZero(used, frameEnd, n, strict); }
  }

  lemma NotFromZero(used: set<nat>, frameEnd: nat, n: nat, strict: bool)
    ensures !Accepts(used, frameEnd, n, strict, 0)
  {
  }

  /** With an alignment of one page every frame number is a multiple. */
  lemma EveryMultiple(used: set<nat>, frameEnd: nat, n: nat)
    ensures forall k: nat :: AlignedFit(used, frameEnd, k, n, 1) <==> Accepts(used, frameEnd, n, true, k)
  {
    forall k: nat
      ensures AlignedFit(used, frameEnd, k, n, 1) <==> Accepts(used, frameEnd, n, true, k)
    {
      MultipleOfOne(k);
    }
  }

  lemma LeastIsFirst(used: set<nat>, frameEnd: nat, block: Region)
    requires IsLeastAligned(used, frameEnd, block, 1)
    ensures FirstRun(used, frameEnd, block.numFrames, true, block.frame)
  {
    EveryMultiple(used, frameEnd, block.numFrames);
    var k: nat :| block.frame == Multiple(k, 1) && AlignedFit(used, frameEnd, k, block.numFrames, 1)
                  && forall j | 0 <= j < k :: !AlignedFit(used, frameEnd, j, block.numFrames, 1);
    MultipleOfOne(k);
  }

  /** The first multiple of an alignment that the aligned search accepts, looking from the k-th on. */
  ghost function SearchAligned(used: set<nat>, frameEnd: nat, n: nat, align: nat, k: nat): (r: Option<nat>)
    requires align > 0
    decreases frameEnd - k
  {
    if AlignedFit(used, frameEnd, k, n, align) then Some(Multiple(k, align))
    else if k > frameEnd then None
    else SearchAligned(used, frameEnd, n, align, k + 1)
  }

  lemma {:induction false} MultipleAtLeast(k: nat, align: nat)
    requires align > 0
    ensures Multiple(k, align) >= k
  {
    if k > 0 {
      MultipleAtLeast(k - 1, align);
    }
  }

  lemma {:induction false} SearchAlignedFails(used: set<nat>, frameEnd: nat, n: nat, align: nat, k: nat)
    requires align > 0 && NoneFits(used, frameEnd, n, align)
    ensures SearchAligned(used, frameEnd, n, align, k) == None
    decreases frameEnd - k
  {
    if k <= frameEnd {
      SearchAlignedFails(used, frameEnd, n, align, k + 1);
    }
  }

  lemma {:induction false} SearchAlignedFinds(used: set<nat>, frameEnd: nat, n: nat, align: nat, k: nat, least: nat)
    requires align > 0 && k <= least && AlignedFit(used, frameEnd, least, n, align)
    requires forall j | k <= j < least :: !AlignedFit(used, frameEnd, j, n, align)
    ensures SearchAligned(used, frameEnd, n, align, k) == Some(Multiple(least, align))
    decreases least - k
  {
    if k < least {
      MultipleAtLeast(least, align);
      SearchAlignedFinds(used, frameEnd, n, align, k + 1, least);
    }
  }

  /** The block of an aligned allocation is where that search ends. */
  lemma SearchAlignedIs(used: set<nat>, frameEnd: nat, block: Region, align: nat)
    requires align > 0 && IsLeastAligned(used, frameEnd, block, align)
    ensures SearchAligned(used, frameEnd, block.numFrames, align, 0) == Some(block.frame)
  {
    var k: nat :| block.frame == Multiple(k, align) && AlignedFit(used, frameEnd, k, block.numFrames, align)
                  && forall j | 0 <= j < k :: !AlignedFit(used, frameEnd, j, block.numFrames, align);
    SearchAlignedFinds(used, frameEnd, block.numFrames, align, 0, k);
  }

  // ---------------------------------------------------------------- single pages, one after another

  /** The used frames after k pages have been allocated one by one; None if the k do not come together. */
  ghost function AfterPages(used: set<nat>, frameEnd: nat, k: nat): Option<set<nat>> {
    if k == 0 then Some(used)
    else
      match AfterPages(used, frameEnd, k - 1)
      case None => None
      case Some(u) => AfterPage(u, frameEnd)
  }

  ghost function AfterPage(used: set<nat>, frameEnd: nat): Option<set<nat>> {
    match Search(used, frameEnd, 1, true, 1)
    case None => None
    case Some(f) => Some(used + {f})
  }

  lemma OnePage(used: set<nat>, frameEnd: nat)
    ensures AfterPages(used, frameEnd, 0) == Some(used) && AfterPages(used, frameEnd, 1) == AfterPage(used, frameEnd)
  {
    hide AfterPage;
    assert AfterPages(used, frameEnd, 0) == Some(used);
  }

  /** j pages and then k more. */
  lemma {:induction false} PagesCompose(used: set<nat>, frameEnd: nat, j: nat, k: nat)
    ensures AfterPages(used, frameEnd, j + k) ==
              match AfterPages(used, frameEnd, j)
              case None => None
              case Some(u) => AfterPages(u, frameEnd, k)
  {
    hide AfterPage;
    if k > 0 {
      PagesCompose(used, frameEnd, j, k - 1);
    }
  }

  /** If some do not come together, more do not either. */
  lemma MorePagesFail(used: set<nat>, frameEnd: nat, j: nat, k: nat)
    requires j <= k && AfterPages(used, frameEnd, j) == None
    ensures AfterPages(used, frameEnd, k) == None
  {
    hide AfterPages;
    PagesCompose(used, frameEnd, j, k - j);
  }
}
