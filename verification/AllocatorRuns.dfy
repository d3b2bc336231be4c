/**
 * Whole runs of the two allocators (ymirc/page_allocator.c,
 * ymirc/bin_allocator.c): any sequence of allocations and of releases of what is
 * still held, whatever succeeds and whatever fails.
 */
module AllocatorRuns {
  import opened Bits
  import opened Memory
  import opened PageAllocator
  import opened BinAllocator

  // ---------------------------------------------------------------- pages

  datatype PageCall = AllocBytes(n: nat) | AllocPages(numPages: nat, alignSize: nat) | FreeHeld(k: nat)

  /** The arguments are 64 bits wide, and the alignment is not zero. */
  predicate Callable(c: PageCall) {
    match c
    case AllocBytes(n) => n < WORD_LIMIT
    case AllocPages(numPages, alignSize) => numPages < WORD_LIMIT && 0 < alignSize < WORD_LIMIT
    case FreeHeld(_) => true
  }

  /** What a caller holds: the pointer it got and the size it asked for. */
  datatype Held = Held(ptr: nat, n: nat)

  predicate HeldOk(h: Held) {
    h.ptr < WORD_LIMIT && h.n < WORD_LIMIT
  }

  function RegionOf(h: Held, reconstructed: bool): Region
    requires HeldOk(h)
  {
    FreedRegion(h.ptr, h.n, reconstructed)
  }

  /** The live blocks are exactly those held, each once. */
  ghost predicate Matches(live: set<Region>, held: seq<Held>, reconstructed: bool) {
    && (forall i | 0 <= i < |held| :: HeldOk(held[i]) && RegionOf(held[i], reconstructed) in live)
    && (forall i, j | 0 <= i < j < |held| :: RegionOf(held[i], reconstructed) != RegionOf(held[j], reconstructed))
    && (forall r | r in live :: exists i :: 0 <= i < |held| && RegionOf(held[i], reconstructed) == r)
  }

  lemma OneMoreHeld(live: set<Region>, held: seq<Held>, reconstructed: bool, h: Held)
    requires Matches(live, held, reconstructed) && HeldOk(h) && RegionOf(h, reconstructed) !in live
    ensures Matches(live + {RegionOf(h, reconstructed)}, held + [h], reconstructed)
  {
    hide RegionOf;
    var live', held' := live + {RegionOf(h, reconstructed)}, held + [h];
    forall r | r in live'
      ensures exists i :: 0 <= i < |held'| && RegionOf(held'[i], reconstructed) == r
    {
      if r in live {
        var i :| 0 <= i < |held| && RegionOf(held[i], reconstructed) == r;
        assert held'[i] == held[i];
      } else {
        assert held'[|held|] == h;
      }
    }
  }

  lemma OneLessHeld(live: set<Region>, held: seq<Held>, reconstructed: bool, k: nat)
    requires Matches(live, held, reconstructed) && k < |held|
    ensures Matches(live - {RegionOf(held[k], reconstructed)}, held[..k] + held[k + 1..], reconstructed)
  {
    hide RegionOf;
    var live', held' := live - {RegionOf(held[k], reconstructed)}, held[..k] + held[k + 1..];
    forall i | 0 <= i < |held'|
      ensures held'[i] == held[if i < k then i else i + 1]
      ensures HeldOk(held'[i]) && RegionOf(held'[i], reconstructed) in live'
    {
      var j := if i < k then i else i + 1;
      assert held'[i] == held[j];
      var lower, upper := if j < k then j else k, if j < k then k else j;
      assert RegionOf(held[lower], reconstructed) != RegionOf(held[upper], reconstructed);
    }
    forall i, j | 0 <= i < j < |held'|
      ensures RegionOf(held'[i], reconstructed) != RegionOf(held'[j], reconstructed)
    {
      assert held'[i] == held[if i < k then i else i + 1] && held'[j] == held[if j < k then j else j + 1];
    }
    forall r | r in live'
      ensures exists i :: 0 <= i < |held'| && RegionOf(held'[i], reconstructed) == r
    {
      var i :| 0 <= i < |held| && RegionOf(held[i], reconstructed) == r;
      assert held'[if i < k then i else i - 1] == held[i];
    }
  }

  /** A successful allocation hands out a pointer whose release gives back exactly its block. */
  lemma ReleaseFits(block: Region, n: nat, reconstructed: bool)
    requires block.frame < 0x200_0000 && n < WORD_LIMIT && block.numFrames == NumFrames(n)
    ensures var h := Held(Phys2Virt(reconstructed, block.frame * PAGE_SIZE), n);
            HeldOk(h) && RegionOf(h, reconstructed) == block
  {
    ConversionRoundTrip(reconstructed, reconstructed, block.frame * PAGE_SIZE);
  }

  lemma BytesOfPages(numPages: nat)
    requires numPages <= 0x200_0000
    ensures numPages * PAGE_SIZE < WORD_LIMIT && NumFrames(numPages * PAGE_SIZE) == numPages
  {
  }

  method PageStep(pa: Allocator, reconstructed: bool, call: PageCall, held: seq<Held>) returns (held': seq<Held>)
    requires pa.Valid() && Callable(call) && Matches(pa.live, held, reconstructed)
    modifies pa`used, pa`live, pa.bitmap
    ensures pa.Valid() && Matches(pa.live, held', reconstructed)
  {
    hide Matches, FreeRun, IsLeastAligned, AlignedFit;
    held' := held;
    match call {
      case AllocBytes(n) =>
        var ptr;
        ghost var block;
        ghost var live := pa.live;
        ptr, block := pa.Alloc(n, reconstructed);
        if ptr != 0 && NumFrames(n) > 0 {
          assert block in pa.live;
          ReleaseFits(block, n, reconstructed);
          OneMoreHeld(live, held, reconstructed, Held(ptr, n));
          held' := held + [Held(ptr, n)];
        }
      case AllocPages(numPages, alignSize) =>
        var ptr;
        ghost var block;
        ghost var live := pa.live;
        ptr, block := pa.AllocAlignedPages(numPages, alignSize, reconstructed);
        if ptr != 0 && numPages > 0 {
          assert block in pa.live;
          BytesOfPages(numPages);
          ReleaseFits(block, numPages * PAGE_SIZE, reconstructed);
          OneMoreHeld(live, held, reconstructed, Held(ptr, numPages * PAGE_SIZE));
          held' := held + [Held(ptr, numPages * PAGE_SIZE)];
        }
      case FreeHeld(k) =>
        if k < |held| {
          HeldIsLive(pa.live, held, reconstructed, k);
          FreeInBounds(pa, RegionOf(held[k], reconstructed));
          OneLessHeld(pa.live, held, reconstructed, k);
          var panicked := pa.Free(held[k].ptr, held[k].n, reconstructed);
          held' := held[..k] + held[k + 1..];
        }
    }
  }

  lemma HeldIsLive(live: set<Region>, held: seq<Held>, reconstructed: bool, k: nat)
    requires Matches(live, held, reconstructed) && k < |held|
    ensures HeldOk(held[k]) && RegionOf(held[k], reconstructed) in live
  {
  }

  /**
   * After any run the used frames below frame_end are the reserved ones and those
   * of the blocks held; the blocks held are pairwise disjoint, inside
   * [1, frame_end) and clear of every reserved region.
   */
  method PageRun(pa: Allocator, reconstructed: bool, calls: seq<PageCall>) returns (held: seq<Held>)
    requires pa.Valid() && pa.live == {} && forall i | 0 <= i < |calls| :: Callable(calls[i])
    modifies pa`used, pa`live, pa.bitmap
    ensures pa.Valid() && Matches(pa.live, held, reconstructed)
    ensures forall f: nat | f < pa.frameEnd ::
              f in pa.used <==> Covered(pa.reserved, f)
                                || exists i :: 0 <= i < |held| && Within(RegionOf(held[i], reconstructed), f)
    ensures forall i, j | 0 <= i < j < |held| ::
              Apart(RegionOf(held[i], reconstructed), RegionOf(held[j], reconstructed))
    ensures forall i | 0 <= i < |held| ::
              var r := RegionOf(held[i], reconstructed);
              && 1 <= r.frame && r.frame + r.numFrames <= pa.frameEnd
              && forall j | 0 <= j < |pa.reserved| :: Apart(r, pa.reserved[j])
  {
    held := [];
    for k := 0 to |calls|
      invariant pa.Valid() && Matches(pa.live, held, reconstructed)
    {
      held := PageStep(pa, reconstructed, calls[k], held);
    }
    hide RegionOf;
    forall f: nat | f < pa.frameEnd
      ensures f in pa.used <==> Covered(pa.reserved, f)
                                || exists i :: 0 <= i < |held| && Within(RegionOf(held[i], reconstructed), f)
    {
      if InBlock(pa.live, f) {
        var r :| r in pa.live && Within(r, f);
        assert exists i :: 0 <= i < |held| && RegionOf(held[i], reconstructed) == r;
      }
    }
  }

  // ---------------------------------------------------------------- chunks

  datatype BinCall = BinAllocCall(n: nat) | BinFreeCall(k: nat)

  /** The physical address behind a pointer. */
  function Addr(h: Held, reconstructed: bool): nat
    requires HeldOk(h)
  {
    Virt2Phys(reconstructed, h.ptr)
  }

  /** The bytes reserved for a request: at least as many as were asked for. */
  function Room(n: nat): (r: nat)
    requires n < WORD_LIMIT
    ensures n <= LARGEST_BIN || NumFrames(n) > 0 ==> r >= n
  {
    RoundingHolds(n);
    if n <= LARGEST_BIN then BinSize(BinOf(n)) else NumFrames(n) * PAGE_SIZE
  }

  /** What is held is a live chunk of its bin, or a live block of pages that is no bin's page. */
  ghost predicate OwnedIn(live: seq<set<nat>>, pages: seq<set<nat>>, blocks: set<Region>, h: Held, reconstructed: bool)
    requires |live| == |pages| == BIN_SIZE_NUM
  {
    && HeldOk(h)
    && var x := Addr(h, reconstructed);
       && x < MANAGED && h.ptr == Phys2Virt(reconstructed, x)
       && if h.n <= LARGEST_BIN then x in live[BinOf(h.n)]
          else
            && NumFrames(h.n) > 0 && x % PAGE_SIZE == 0 && Region(x / PAGE_SIZE, NumFrames(h.n)) in blocks
            && forall b | 0 <= b < BIN_SIZE_NUM :: x / PAGE_SIZE !in pages[b]
  }

  ghost predicate Owned(bins: Bins, h: Held)
    reads bins, bins.pa
  {
    bins.Sized() && OwnedIn(bins.live, bins.pages, bins.pa.live, h, bins.reconstructed)
  }

  ghost predicate Separate(g: Held, h: Held, reconstructed: bool)
    requires HeldOk(g) && HeldOk(h)
  {
    || Addr(g, reconstructed) + Room(g.n) <= Addr(h, reconstructed)
    || Addr(h, reconstructed) + Room(h.n) <= Addr(g, reconstructed)
  }

  /** The frame of a live chunk. */
  lemma ChunkFrame(bins: Bins, h: Held)
    requires bins.Valid() && Owned(bins, h) && h.n <= LARGEST_BIN
    ensures var x := Addr(h, bins.reconstructed);
            && AlignedToBin(BinOf(h.n), x) && x / PAGE_SIZE in bins.pages[BinOf(h.n)]
            && Region(x / PAGE_SIZE, 1) in bins.pa.live
            && (x + Room(h.n) - 1) / PAGE_SIZE == x / PAGE_SIZE
  {
    hide Allocator.Valid, Linked, NoDuplicates, AlignedToBin;
    var x, b := Addr(h, bins.reconstructed), BinOf(h.n);
    assert IsChunk(b, bins.pages[b], x);
    ChunkInPage(b, x);
  }

  /** Two things held at different addresses share no byte. */
  lemma OwnedApart(bins: Bins, g: Held, h: Held)
    requires bins.Valid() && Owned(bins, g) && Owned(bins, h)
    requires Addr(g, bins.reconstructed) != Addr(h, bins.reconstructed)
    ensures Separate(g, h, bins.reconstructed)
  {
    hide Bins.Valid, Addr, AlignedToBin, NumFrames, BinSize;
    var x, y := Addr(g, bins.reconstructed), Addr(h, bins.reconstructed);
    if g.n <= LARGEST_BIN && h.n <= LARGEST_BIN {
      bins.ChunksDisjoint(BinOf(g.n), x, BinOf(h.n), y);
    } else if g.n <= LARGEST_BIN {
      ChunkFrame(bins, g);
      PagesApart(bins, Region(x / PAGE_SIZE, 1), Region(y / PAGE_SIZE, NumFrames(h.n)));
    } else if h.n <= LARGEST_BIN {
      ChunkFrame(bins, h);
      PagesApart(bins, Region(y / PAGE_SIZE, 1), Region(x / PAGE_SIZE, NumFrames(g.n)));
    } else {
      PagesApart(bins, Region(x / PAGE_SIZE, NumFrames(g.n)), Region(y / PAGE_SIZE, NumFrames(h.n)));
    }
  }

  lemma PagesApart(bins: Bins, r: Region, s: Region)
    requires bins.Valid() && r in bins.pa.live && s in bins.pa.live && r != s
    ensures Apart(r, s)
  {
  }

  /** Every frame of what is held is in use. */
  lemma OwnedInUse(bins: Bins, h: Held, a: nat)
    requires bins.Valid() && Owned(bins, h)
    requires Addr(h, bins.reconstructed) <= a < Addr(h, bins.reconstructed) + Room(h.n)
    ensures a / PAGE_SIZE in bins.pa.used
  {
    hide Bins.Valid, Addr, AlignedToBin, BinSize;
    var x := Addr(h, bins.reconstructed);
    PartOfValid(bins);
    if h.n <= LARGEST_BIN {
      ChunkFrame(bins, h);
      BlockInUse(bins.pa, Region(x / PAGE_SIZE, 1), a / PAGE_SIZE);
    } else {
      BlockInUse(bins.pa, Region(x / PAGE_SIZE, NumFrames(h.n)), a / PAGE_SIZE);
    }
  }

  lemma PartOfValid(bins: Bins)
    requires bins.Valid()
    ensures bins.pa.Valid() && bins.Sized()
  {
  }

  /** The words of what is held are the same in both memories. */
  ghost predicate SameContents(m: Words, n: Words, h: Held, reconstructed: bool)
    requires HeldOk(h)
  {
    forall k: nat | Addr(h, reconstructed) <= 8 * k < Addr(h, reconstructed) + Room(h.n) :: At(n, k) == At(m, k)
  }

  lemma ContentsCompose(m0: Words, m1: Words, m2: Words, h: Held, reconstructed: bool)
    requires HeldOk(h)
    ensures SameContents(m0, m0, h, reconstructed)
    ensures SameContents(m0, m1, h, reconstructed) && SameContents(m1, m2, h, reconstructed) ==>
              SameContents(m0, m2, h, reconstructed)
  {
    hide Addr, Room;
  }

  /** Everything held is owned, at pairwise different addresses. */
  ghost predicate AllOwned(bins: Bins, held: seq<Held>)
    reads bins, bins.pa
  {
    && (forall i | 0 <= i < |held| :: HeldOk(held[i]) && Owned(bins, held[i]))
    && (forall i, j | 0 <= i < j < |held| :: Addr(held[i], bins.reconstructed) != Addr(held[j], bins.reconstructed))
  }

  // ---------------------------------------------------------------- one call

  /** An allocation takes nothing away from what is held. */
  lemma StillOwned(
      live: seq<set<nat>>, pages: seq<set<nat>>, blocks: set<Region>, live': seq<set<nat>>, pages': seq<set<nat>>,
      blocks': set<Region>, used: set<nat>, h: Held, reconstructed: bool)
    requires |live| == |pages| == |live'| == |pages'| == BIN_SIZE_NUM && OwnedIn(live, pages, blocks, h, reconstructed)
    requires forall b | 0 <= b < BIN_SIZE_NUM :: live[b] <= live'[b]
    requires blocks <= blocks' && GrownPages(pages, pages', used) && Addr(h, reconstructed) / PAGE_SIZE in used
    ensures OwnedIn(live', pages', blocks', h, reconstructed)
  {
    hide Addr, NumFrames, Phys2Virt;
  }

  /** A release takes nothing away from what is held elsewhere. */
  lemma OwnedElsewhere(
      live: seq<set<nat>>, pages: seq<set<nat>>, blocks: set<Region>, live': seq<set<nat>>, blocks': set<Region>,
      g: Held, h: Held, reconstructed: bool)
    requires |live| == |pages| == |live'| == BIN_SIZE_NUM
    requires OwnedIn(live, pages, blocks, g, reconstructed) && OwnedIn(live, pages, blocks, h, reconstructed)
    requires Addr(g, reconstructed) != Addr(h, reconstructed)
    requires if g.n <= LARGEST_BIN then
               live' == live[BinOf(g.n) := live[BinOf(g.n)] - {Addr(g, reconstructed)}] && blocks' == blocks
             else
               live' == live && blocks' == blocks - {Region(Addr(g, reconstructed) / PAGE_SIZE, NumFrames(g.n))}
    ensures OwnedIn(live', pages, blocks', h, reconstructed)
  {
    hide Addr, NumFrames, Phys2Virt;
  }

  lemma PointerIsAddr(ptr: nat, n: nat, x: nat, reconstructed: bool)
    requires x < MANAGED && ptr == Phys2Virt(reconstructed, x) && n < WORD_LIMIT
    ensures HeldOk(Held(ptr, n)) && Addr(Held(ptr, n), reconstructed) == x
  {
    ConversionRoundTrip(reconstructed, reconstructed, x);
  }

  /** A chunk that was no live chunk before: it is owned now, and at none of the addresses held. */
  lemma NewChunk(
      bins: Bins, live: seq<set<nat>>, pages: seq<set<nat>>, blocks: set<Region>, n: nat, ptr: nat, x: nat, h: Held)
    requires bins.Valid() && |live| == |pages| == BIN_SIZE_NUM && n <= LARGEST_BIN
    requires x < MANAGED && ptr == Phys2Virt(bins.reconstructed, x) && x in bins.live[BinOf(n)]
    requires forall c | 0 <= c < BIN_SIZE_NUM :: x !in live[c]
    requires OwnedIn(live, pages, blocks, h, bins.reconstructed) && Owned(bins, h)
    ensures Addr(h, bins.reconstructed) != x
  {
    hide Bins.Valid, Addr, Phys2Virt, AlignedToBin;
    if h.n > LARGEST_BIN {
      PointerIsAddr(ptr, n, x, bins.reconstructed);
      ChunkFrame(bins, Held(ptr, n));
    }
  }

  /** The same for a block of pages. */
  lemma NewBlock(bins: Bins, blocks: set<Region>, n: nat, x: nat, h: Held)
    requires bins.Valid() && n < WORD_LIMIT && x % PAGE_SIZE == 0 && NumFrames(n) > 0
    requires Region(x / PAGE_SIZE, NumFrames(n)) in bins.pa.live - blocks
    requires forall b, f | 0 <= b < BIN_SIZE_NUM && f in bins.pages[b] :: Region(f, 1) in blocks
    requires Owned(bins, h)
    requires h.n > LARGEST_BIN ==> Region(Addr(h, bins.reconstructed) / PAGE_SIZE, NumFrames(h.n)) in blocks
    ensures Addr(h, bins.reconstructed) != x
  {
    hide Bins.Valid, Addr, Phys2Virt, AlignedToBin, NumFrames;
    var y := Addr(h, bins.reconstructed);
    if h.n <= LARGEST_BIN {
      ChunkFrame(bins, h);
    }
    var frames := if h.n <= LARGEST_BIN then 1 else NumFrames(h.n);
    PagesApart(bins, Region(x / PAGE_SIZE, NumFrames(n)), Region(y / PAGE_SIZE, frames));
  }

  lemma BlockIsNoBinPage(bins: Bins, blocks: set<Region>, r: Region)
    requires bins.Valid() && r in bins.pa.live - blocks
    requires forall b, f | 0 <= b < BIN_SIZE_NUM && f in bins.pages[b] :: Region(f, 1) in blocks
    ensures forall b | 0 <= b < BIN_SIZE_NUM :: r.frame !in bins.pages[b]
  {
    forall b | 0 <= b < BIN_SIZE_NUM
      ensures r.frame !in bins.pages[b]
    {
      if r.frame in bins.pages[b] {
        PagesApart(bins, r, Region(r.frame, 1));
      }
    }
  }

  lemma PagesAreBlocks(bins: Bins)
    requires bins.Valid()
    ensures forall b, f | 0 <= b < BIN_SIZE_NUM && f in bins.pages[b] :: Region(f, 1) in bins.pa.live
  {
  }

  /** Words of frames in use are the same in both memories. */
  ghost predicate UsedKept(m: Words, n: Words, used: set<nat>) {
    forall k: nat | k / 512 in used :: At(n, k) == At(m, k)
  }

  /** What is held lies in frames in use, so it is kept with them. */
  lemma HeldInUse(bins: Bins, h: Held)
    requires bins.Valid() && HeldOk(h) && Owned(bins, h)
    ensures Addr(h, bins.reconstructed) / PAGE_SIZE in bins.pa.used
    ensures forall m: Words, n: Words | UsedKept(m, n, bins.pa.used) :: SameContents(m, n, h, bins.reconstructed)
  {
    hide Bins.Valid, Addr, Room, OwnedIn;
    PartOfValid(bins);
    RoomIsPositive(bins, h);
    OwnedInUse(bins, h, Addr(h, bins.reconstructed));
    forall k: nat | Addr(h, bins.reconstructed) <= 8 * k < Addr(h, bins.reconstructed) + Room(h.n)
      ensures k / 512 in bins.pa.used
    {
      OwnedInUse(bins, h, 8 * k);
      assert 8 * k / PAGE_SIZE == k / 512;
    }
  }

  /** What bin_alloc returned is owned. */
  lemma NewIsOwned(bins: Bins, blocks: set<Region>, n: nat, ptr: nat, x: nat)
    requires bins.Valid() && n < WORD_LIMIT && x < MANAGED && ptr == Phys2Virt(bins.reconstructed, x)
    requires n <= LARGEST_BIN ==> x in bins.live[BinOf(n)]
    requires n > LARGEST_BIN ==>
               && NumFrames(n) > 0 && x % PAGE_SIZE == 0
               && Region(x / PAGE_SIZE, NumFrames(n)) in bins.pa.live - blocks
               && forall b, f | 0 <= b < BIN_SIZE_NUM && f in bins.pages[b] :: Region(f, 1) in blocks
    ensures HeldOk(Held(ptr, n)) && Owned(bins, Held(ptr, n)) && Addr(Held(ptr, n), bins.reconstructed) == x
  {
    hide Bins.Valid, Addr, Phys2Virt, NumFrames, AlignedToBin;
    PartOfValid(bins);
    PointerIsAddr(ptr, n, x, bins.reconstructed);
    if n > LARGEST_BIN {
      BlockIsNoBinPage(bins, blocks, Region(x / PAGE_SIZE, NumFrames(n)));
    }
  }

  /** bin_alloc, called with something held. */
  method AllocStep(bins: Bins, n: nat, held: seq<Held>) returns (held': seq<Held>)
    requires bins.Valid() && n < WORD_LIMIT && AllOwned(bins, held)
    modifies bins, bins.mem, bins.pa`used, bins.pa`live, bins.pa.bitmap
    ensures bins.Valid() && AllOwned(bins, held')
    ensures held' == held || (|held'| == |held| + 1 && held'[..|held|] == held && held'[|held|].n == n)
    ensures forall i | 0 <= i < |held| :: SameContents(old(bins.mem.words), bins.mem.words, held[i], bins.reconstructed)
  {
    hide Bins.Valid, Addr, Room, FreeRun, AlignedToBin, Phys2Virt, NumFrames, OwnedIn, SameContents, GrownPages;
    ghost var r, used, m := bins.reconstructed, bins.pa.used, bins.mem.words;
    ghost var live, pages, blocks := bins.live, bins.pages, bins.pa.live;
    PartOfValid(bins);
    PagesAreBlocks(bins);
    forall i | 0 <= i < |held|
      ensures Addr(held[i], r) / PAGE_SIZE in used
      ensures forall n: Words | UsedKept(m, n, used) :: SameContents(m, n, held[i], r)
    {
      HeldInUse(bins, held[i]);
    }
    var ptr;
    ghost var b, x;
    ptr, b, x := bins.BinAlloc(n);
    PartOfValid(bins);
    assert UsedKept(m, bins.mem.words, used);
    LiveGrows(live, bins.live, b, x);
    forall i | 0 <= i < |held|
      ensures Owned(bins, held[i])
    {
      StillOwned(live, pages, blocks, bins.live, bins.pages, bins.pa.live, used, held[i], r);
    }
    held' := held;
    if ptr != 0 && (n <= LARGEST_BIN || NumFrames(n) > 0) {
      NewIsOwned(bins, blocks, n, ptr, x);
      forall i | 0 <= i < |held|
        ensures Addr(held[i], r) != x
      {
        if n <= LARGEST_BIN {
          NewChunk(bins, live, pages, blocks, n, ptr, x, held[i]);
        } else {
          HeldBlock(live, pages, blocks, held[i], r);
          NewBlock(bins, blocks, n, x, held[i]);
        }
      }
      held' := held + [Held(ptr, n)];
    }
  }

  lemma LiveGrows(before: seq<set<nat>>, after: seq<set<nat>>, b: int, x: nat)
    requires |before| == BIN_SIZE_NUM
    requires after == before || (0 <= b < BIN_SIZE_NUM && after == before[b := before[b] + {x}])
    ensures |after| == BIN_SIZE_NUM && forall c | 0 <= c < BIN_SIZE_NUM :: before[c] <= after[c]
  {
  }

  lemma HeldBlock(live: seq<set<nat>>, pages: seq<set<nat>>, blocks: set<Region>, h: Held, reconstructed: bool)
    requires |live| == |pages| == BIN_SIZE_NUM && OwnedIn(live, pages, blocks, h, reconstructed)
    ensures HeldOk(h)
    ensures h.n > LARGEST_BIN ==> Region(Addr(h, reconstructed) / PAGE_SIZE, NumFrames(h.n)) in blocks
  {
  }

  lemma RoomIsEnough(bins: Bins, h: Held)
    requires bins.Sized() && Owned(bins, h)
    ensures Room(h.n) >= h.n
  {
  }

  lemma RoomIsPositive(bins: Bins, h: Held)
    requires bins.Sized() && Owned(bins, h)
    ensures Room(h.n) > 0
  {
  }

  /** What bin_free requires of a pointer that is held. */
  lemma Releasable(bins: Bins, h: Held)
    requires bins.Valid() && Owned(bins, h)
    ensures h.n <= LARGEST_BIN ==> AlignedToBin(BinOf(h.n), Addr(h, bins.reconstructed))
    ensures h.n > LARGEST_BIN ==>
              FreedRegion(h.ptr, h.n, bins.reconstructed)
              == Region(Addr(h, bins.reconstructed) / PAGE_SIZE, NumFrames(h.n))
  {
    hide Bins.Valid, NumFrames;
    if h.n <= LARGEST_BIN {
      ChunkFrame(bins, h);
    } else {
      ConversionRoundTrip(bins.reconstructed, bins.reconstructed, Addr(h, bins.reconstructed));
    }
  }

  /** The word at a released chunk's address belongs to nothing else that is held. */
  lemma FreedWordElsewhere(bins: Bins, g: Held, h: Held, m: Words, n: Words, w: Word)
    requires bins.Valid() && HeldOk(g) && HeldOk(h) && Owned(bins, g) && Owned(bins, h) && g.n <= LARGEST_BIN
    requires Addr(g, bins.reconstructed) != Addr(h, bins.reconstructed)
    requires n == m[Addr(g, bins.reconstructed) / 8 := w]
    ensures SameContents(m, n, h, bins.reconstructed)
  {
    hide Bins.Valid, Phys2Virt, Addr, Room, AlignedToBin, Owned;
    PartOfValid(bins);
    OwnedApart(bins, g, h);
    ChunkFrame(bins, g);
    ChunkInPage(BinOf(g.n), Addr(g, bins.reconstructed));
    RoomIsPositive(bins, g);
    forall k: nat | Addr(h, bins.reconstructed) <= 8 * k < Addr(h, bins.reconstructed) + Room(h.n)
      ensures At(n, k) == At(m, k)
    {
      WordElsewhere(Addr(g, bins.reconstructed), Room(g.n), Addr(h, bins.reconstructed), Room(h.n), k);
    }
  }

  lemma WordElsewhere(x: nat, room: nat, y: nat, other: nat, k: nat)
    requires x % 0x20 == 0 && room > 0 && (x + room <= y || y + other <= x) && y <= 8 * k < y + other
    ensures k != x / 8
  {
  }

  /** bin_free of something held. */
  method FreeStep(bins: Bins, held: seq<Held>, k: nat)
    requires bins.Valid() && AllOwned(bins, held) && k < |held|
    modifies bins, bins.mem, bins.pa`used, bins.pa`live, bins.pa.bitmap
    ensures bins.Valid() && AllOwned(bins, held[..k] + held[k + 1..])
    ensures forall i | 0 <= i < |held| && i != k ::
              SameContents(old(bins.mem.words), bins.mem.words, held[i], bins.reconstructed)
  {
    hide Bins.Valid, Addr, Room, AlignedToBin, Phys2Virt, NumFrames, FreedRegion, ToWord;
    ghost var r, x, m := bins.reconstructed, Addr(held[k], bins.reconstructed), bins.mem.words;
    ghost var live, pages, blocks, heads := bins.live, bins.pages, bins.pa.live, bins.listHeads;
    PartOfValid(bins);
    Releasable(bins, held[k]);
    forall i | 0 <= i < |held| && i != k
      ensures Addr(held[i], r) != x
      ensures held[k].n <= LARGEST_BIN ==> SameContents(m, m[x / 8 := ToWord(heads[BinOf(held[k].n)])], held[i], r)
    {
      assert Addr(held[if i < k then i else k], r) != Addr(held[if i < k then k else i], r);
      if held[k].n <= LARGEST_BIN {
        FreedWordElsewhere(bins, held[k], held[i], m, m[x / 8 := ToWord(heads[BinOf(held[k].n)])],
            ToWord(heads[BinOf(held[k].n)]));
      }
    }
    var rejected, panicked := bins.BinFree(held[k].ptr, held[k].n, x);
    PartOfValid(bins);
    forall i | 0 <= i < |held| && i != k
      ensures Owned(bins, held[i])
    {
      OwnedElsewhere(live, pages, blocks, bins.live, bins.pa.live, held[k], held[i], r);
    }
    ghost var rest := held[..k] + held[k + 1..];
    assert forall i | 0 <= i < |rest| :: rest[i] == held[if i < k then i else i + 1];
  }

  // ---------------------------------------------------------------- whole runs

  predicate BinCallable(c: BinCall) {
    c.BinAllocCall? ==> c.n < WORD_LIMIT
  }

  /**
   * Over any run of bin_alloc and bin_free calls, no call writes a byte of what
   * others keep; at the end everything held lies apart from everything else held
   * and has room for what was asked.
   */
  method BinRun(bins: Bins, kept: seq<Held>, calls: seq<BinCall>) returns (held: seq<Held>)
    requires bins.Valid() && AllOwned(bins, kept) && forall i | 0 <= i < |calls| :: BinCallable(calls[i])
    modifies bins, bins.mem, bins.pa`used, bins.pa`live, bins.pa.bitmap
    ensures bins.Valid() && AllOwned(bins, held) && |kept| <= |held| && held[..|kept|] == kept
    ensures forall i, j | 0 <= i < j < |held| :: Separate(held[i], held[j], bins.reconstructed)
    ensures forall i | 0 <= i < |held| :: Room(held[i].n) >= held[i].n
    ensures forall i | 0 <= i < |kept| :: SameContents(old(bins.mem.words), bins.mem.words, kept[i], bins.reconstructed)
  {
    hide Bins.Valid, Addr, Room, Owned, Separate, SameContents;
    ghost var m0 := bins.mem.words;
    held := kept;
    forall i | 0 <= i < |kept|
      ensures SameContents(m0, m0, kept[i], bins.reconstructed)
    {
      ContentsCompose(m0, m0, m0, kept[i], bins.reconstructed);
    }
    for k := 0 to |calls|
      invariant bins.Valid() && AllOwned(bins, held) && |kept| <= |held| && held[..|kept|] == kept
      invariant forall i | 0 <= i < |kept| :: SameContents(m0, bins.mem.words, kept[i], bins.reconstructed)
    {
      ghost var m, before := bins.mem.words, held;
      match calls[k] {
        case BinAllocCall(n) => held := AllocStep(bins, n, held);
        case BinFreeCall(j) =>
          if |kept| + j < |held| {
            FreeStep(bins, held, |kept| + j);
            held := held[..|kept| + j] + held[|kept| + j + 1..];
          }
      }
      forall i | 0 <= i < |kept|
        ensures SameContents(m0, bins.mem.words, kept[i], bins.reconstructed)
      {
        assert before[i] == kept[i];
        ContentsCompose(m0, m, bins.mem.words, kept[i], bins.reconstructed);
      }
    }
    PartOfValid(bins);
    forall i, j | 0 <= i < j < |held|
      ensures Separate(held[i], held[j], bins.reconstructed)
    {
      OwnedApart(bins, held[i], held[j]);
    }
    forall i | 0 <= i < |held|
      ensures Room(held[i].n) >= held[i].n
    {
      RoomIsEnough(bins, held[i]);
    }
  }
}
