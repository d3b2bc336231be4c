/**
 * How the boot loader places the kernel image (surtrc/boot.c): the physical range
 * of the loadable segments, the loop that maps it, and the protection of each
 * segment's pages. Reading the file into the mapped pages is not part of this.
 */
module BootImage {
  import opened Bits
  import opened Memory
  import opened PageTables
  import opened Wrappers
  import opened BootPaging
  import opened Arithmetic

  /** The fields of Elf64_Phdr that matter here. */
  datatype Phdr = Phdr(kind: nat, flags: nat, vaddr: nat, paddr: nat, memsz: nat)

  const PT_LOAD := 1

  predicate Loadable(ph: Phdr) {
    ph.kind == PT_LOAD && ph.memsz != 0
  }

  /** The end of a segment in 64-bit arithmetic. */
  function SegmentEnd(ph: Phdr): nat {
    (ph.paddr + ph.memsz) % WORD_LIMIT
  }

  /** PF_X is bit 0 and PF_W bit 1 of the flags; execution wins over writing. */
  function ReadPFlags(flags: nat): PageAttribute {
    if flags % 2 == 1 then Executable else if flags / 2 % 2 == 1 then ReadWrite else ReadOnly
  }

  // ---------------------------------------------------------------- the range

  /** The least addresses and the greatest end among the first n segments, or the initial values. */
  ghost predicate Range(phdrs: seq<Phdr>, n: nat, startVirt: nat, startPhys: nat, endPhys: nat)
    requires n <= |phdrs|
  {
    && (forall i | 0 <= i < n && Loadable(phdrs[i]) ::
          startVirt <= phdrs[i].vaddr && startPhys <= phdrs[i].paddr && SegmentEnd(phdrs[i]) <= endPhys)
    && (startVirt == WORD_LIMIT - 1 || exists i :: 0 <= i < n && Loadable(phdrs[i]) && phdrs[i].vaddr == startVirt)
    && (startPhys == WORD_LIMIT - 1 || exists i :: 0 <= i < n && Loadable(phdrs[i]) && phdrs[i].paddr == startPhys)
    && (endPhys == 0 || exists i :: 0 <= i < n && Loadable(phdrs[i]) && SegmentEnd(phdrs[i]) == endPhys)
  }

  method ComputeKernelMemoryRange(phdrs: seq<Phdr>) returns (startVirt: nat, startPhys: nat, endPhys: nat)
    requires forall i | 0 <= i < |phdrs| :: phdrs[i].vaddr < WORD_LIMIT && phdrs[i].paddr < WORD_LIMIT
    ensures Range(phdrs, |phdrs|, startVirt, startPhys, endPhys)
  {
    startVirt, startPhys, endPhys := WORD_LIMIT - 1, WORD_LIMIT - 1, 0;
    for i := 0 to |phdrs|
      invariant Range(phdrs, i, startVirt, startPhys, endPhys)
    {
      var ph := phdrs[i];
      if Loadable(ph) {
        if ph.vaddr < startVirt {
          startVirt := ph.vaddr;
        }
        if ph.paddr < startPhys {
          startPhys := ph.paddr;
        }
        if SegmentEnd(ph) > endPhys {
          endPhys := SegmentEnd(ph);
        }
      }
    }
  }

  /** pages_4kib, in 64-bit arithmetic. */
  function PageCount(startPhys: nat, endPhys: nat): nat
    requires startPhys < WORD_LIMIT && endPhys < WORD_LIMIT
  {
    (Sub64(endPhys, startPhys) + PAGE_SIZE - 1) % WORD_LIMIT / PAGE_SIZE
  }

  /** The segments the loader is written for: one page-aligned offset, no wrap, at least one to load. */
  ghost predicate OneOffset(phdrs: seq<Phdr>, offset: nat) {
    && offset % PAGE_SIZE == 0
    && (exists i :: 0 <= i < |phdrs| && Loadable(phdrs[i]))
    && (forall i | 0 <= i < |phdrs| ::
          && phdrs[i].vaddr < WORD_LIMIT && phdrs[i].paddr < WORD_LIMIT
          && (Loadable(phdrs[i]) ==>
                && phdrs[i].vaddr == phdrs[i].paddr + offset
                && phdrs[i].paddr + phdrs[i].memsz <= FRAME_LIMIT * PAGE_SIZE - PAGE_SIZE
                && phdrs[i].vaddr + phdrs[i].memsz <= WORD_LIMIT - PAGE_SIZE))
  }

  lemma SegmentFacts(phdrs: seq<Phdr>, offset: nat, i: nat)
    requires OneOffset(phdrs, offset) && i < |phdrs| && Loadable(phdrs[i])
    ensures phdrs[i].vaddr == phdrs[i].paddr + offset
    ensures phdrs[i].paddr < SegmentEnd(phdrs[i]) == phdrs[i].paddr + phdrs[i].memsz
    ensures SegmentEnd(phdrs[i]) <= FRAME_LIMIT * PAGE_SIZE - PAGE_SIZE
    ensures phdrs[i].vaddr + phdrs[i].memsz <= WORD_LIMIT - PAGE_SIZE
  {
  }

  lemma RangeOffset(phdrs: seq<Phdr>, offset: nat, startVirt: nat, startPhys: nat, endPhys: nat)
    requires OneOffset(phdrs, offset) && Range(phdrs, |phdrs|, startVirt, startPhys, endPhys)
    ensures startVirt == startPhys + offset && startPhys < endPhys <= FRAME_LIMIT * PAGE_SIZE - PAGE_SIZE
    ensures exists i :: 0 <= i < |phdrs| && Loadable(phdrs[i]) && SegmentEnd(phdrs[i]) == endPhys
  {
    var i :| 0 <= i < |phdrs| && Loadable(phdrs[i]);
    SegmentFacts(phdrs, offset, i);
    hide OneOffset, SegmentEnd;
    var v :| 0 <= v < |phdrs| && Loadable(phdrs[v]) && phdrs[v].vaddr == startVirt;
    SegmentFacts(phdrs, offset, v);
    var p :| 0 <= p < |phdrs| && Loadable(phdrs[p]) && phdrs[p].paddr == startPhys;
    SegmentFacts(phdrs, offset, p);
    var e :| 0 <= e < |phdrs| && Loadable(phdrs[e]) && SegmentEnd(phdrs[e]) == endPhys;
    SegmentFacts(phdrs, offset, e);
  }

  lemma PageCountNoWrap(startPhys: nat, endPhys: nat)
    requires startPhys < endPhys < WORD_LIMIT - PAGE_SIZE
    ensures PageCount(startPhys, endPhys) == (endPhys - startPhys - 1) / PAGE_SIZE + 1
  {
  }

  // ---------------------------------------------------------------- coverage

  /** Byte number d of the image range, counted from start_phys, lies in a page the loop maps. */
  predicate InMappedPages(startPhys: nat, endPhys: nat, d: nat)
    requires startPhys < endPhys < WORD_LIMIT
  {
    (startPhys % PAGE_SIZE + d) / PAGE_SIZE < PageCount(startPhys, endPhys)
  }

  /**
   * The page count is rounded up from the range's length alone. It reaches the
   * last byte exactly when the start's offset into its page and the length's
   * last page together fit one page; an aligned start always does.
   */
  predicate RangeFits(startPhys: nat, endPhys: nat)
    requires startPhys < endPhys
  {
    startPhys % PAGE_SIZE + (endPhys - startPhys - 1) % PAGE_SIZE < PAGE_SIZE
  }

  lemma CoverageCondition(startPhys: nat, endPhys: nat)
    requires startPhys < endPhys < WORD_LIMIT - PAGE_SIZE
    ensures (forall d | 0 <= d < endPhys - startPhys :: InMappedPages(startPhys, endPhys, d))
            <==> RangeFits(startPhys, endPhys)
    ensures startPhys % PAGE_SIZE == 0 ==> RangeFits(startPhys, endPhys)
  {
    var last := endPhys - startPhys - 1;
    LastPage(startPhys % PAGE_SIZE, last);
    PageCountNoWrap(startPhys, endPhys);
    if RangeFits(startPhys, endPhys) {
      forall d | 0 <= d < endPhys - startPhys
        ensures InMappedPages(startPhys, endPhys, d)
      {
        assert (startPhys % PAGE_SIZE + d) / PAGE_SIZE <= (startPhys % PAGE_SIZE + last) / PAGE_SIZE;
      }
    } else {
      assert !InMappedPages(startPhys, endPhys, last);
    }
  }

  lemma LastPage(s: nat, last: nat)
    requires s < PAGE_SIZE
    ensures (s + last) / PAGE_SIZE == last / PAGE_SIZE + if s + last % PAGE_SIZE < PAGE_SIZE then 0 else 1
  {
  }

  /** A range of two pages that starts in the middle of one: its last byte is left out. */
  lemma UnalignedStartMissesItsEnd()
    ensures PageCount(0x10_0FFF, 0x10_2001) == 2
    ensures !InMappedPages(0x10_0FFF, 0x10_2001, 0x10_2000 - 0x10_0FFF)
  {
  }

  // ---------------------------------------------------------------- the mapping loop

  /** The first n pages from `start` lead to the pages from `phys`; every other address is as in v. */
  ghost predicate PagesMapped(v: View, v': View, root: nat, start: nat, phys: nat, n: nat) {
    forall a: nat | a < ADDRESS_LIMIT ::
      Walk(v', root, a) ==
        if start / PAGE_SIZE <= a / PAGE_SIZE < start / PAGE_SIZE + n then
          MappedAt(phys / PAGE_SIZE + (a / PAGE_SIZE - start / PAGE_SIZE), a)
        else Walk(v, root, a)
  }

  /** A fresh 4KiB translation. The PS position of a level-1 entry is set, and means nothing there. */
  function MappedAt(frame: nat, a: nat): Translation {
    Mapped(frame * PAGE_SIZE + a % PAGE_SIZE, Entry(true, true, false, false, frame))
  }

  lemma OneMorePage(v: View, v': View, v'': View, root: nat, start: nat, phys: nat, n: nat)
    requires PagesMapped(v, v', root, start, phys, n)
    requires forall a: nat | a < ADDRESS_LIMIT ::
               Walk(v'', root, a) == if Page(a, 1) == Page(start + n * PAGE_SIZE, 1) then
                                       MappedAt((phys + n * PAGE_SIZE) / PAGE_SIZE, a)
                                     else Walk(v', root, a)
    ensures PagesMapped(v, v'', root, start, phys, n + 1)
  {
    hide Walk, WalkFrom;
    AddPages(start, n);
    AddPages(phys, n);
  }

  /** The loop of efi_main that maps the image, page by page. */
  method MapImage(
      startVirt: nat, startPhys: nat, pages: nat,
      fw: Firmware, mem: PhysicalMemory, cr3: nat,
      ghost tables: set<nat>, ghost lo: nat, ghost hi: nat, ghost open: bool)
    returns (r: Outcome, ghost tables': set<nat>)
    requires cr3 % PAGE_SIZE == 0 && startPhys + pages * PAGE_SIZE <= FRAME_LIMIT * PAGE_SIZE
    requires lo <= startVirt % ADDRESS_LIMIT && startVirt % ADDRESS_LIMIT + pages * PAGE_SIZE <= hi <= ADDRESS_LIMIT
    requires PoolOk(fw.pool, tables) && Live(mem.words, cr3 / PAGE_SIZE, tables, lo, hi, open)
    modifies fw, mem
    ensures r == OutOfMemory ==> |old(fw.pool)| < 3 * pages
    ensures r == Done ==> tables <= tables' && Live(mem.words, cr3 / PAGE_SIZE, tables', lo, hi, open)
    ensures r == Done ==> OnlyFrames(old(mem.words), mem.words, tables')
    ensures r == Done ==>
              PagesMapped(Decoded(old(mem.words)), Decoded(mem.words), cr3 / PAGE_SIZE, startVirt % ADDRESS_LIMIT,
                  startPhys, pages)
    ensures r == AlreadyMapped ==> exists i ::
              && 0 <= i < pages
              && Walk(Decoded(old(mem.words)), cr3 / PAGE_SIZE, startVirt % ADDRESS_LIMIT + i * PAGE_SIZE).Mapped?
  {
    hide Live, Walk, WalkFrom, PoolOk, Decode;
    ghost var m0 := mem.words;
    tables' := tables;
    for i := 0 to pages
      invariant tables <= tables' && PoolOk(fw.pool, tables') && Live(mem.words, cr3 / PAGE_SIZE, tables', lo, hi, open)
      invariant OnlyFrames(m0, mem.words, tables') && |fw.pool| >= |old(fw.pool)| - 3 * i
      invariant PagesMapped(Decoded(m0), Decoded(mem.words), cr3 / PAGE_SIZE, startVirt % ADDRESS_LIMIT, startPhys, i)
    {
      ghost var m := mem.words;
      AddWithin48Bits(startVirt, i * PAGE_SIZE);
      r, tables' := Map4kTo(startVirt + i * PAGE_SIZE, startPhys + i * PAGE_SIZE, fw, mem, cr3, tables', lo, hi, open);
      if r != Done {
        return;
      }
      OneMorePage(Decoded(m0), Decoded(m), Decoded(mem.words), cr3 / PAGE_SIZE, startVirt % ADDRESS_LIMIT, startPhys,
          i);
    }
    r := Done;
  }

  // ---------------------------------------------------------------- protection

  function PageStart(ph: Phdr): nat {
    ph.vaddr - ph.vaddr % PAGE_SIZE
  }

  function PageEnd(ph: Phdr): nat {
    var end := ph.vaddr + ph.memsz + (PAGE_SIZE - 1);
    end - end % PAGE_SIZE
  }

  /** The page of a (48-bit) address is one of the pages of the segment. */
  predicate Touches(ph: Phdr, a: nat) {
    PageStart(ph) % ADDRESS_LIMIT / PAGE_SIZE <= a / PAGE_SIZE
      < PageStart(ph) % ADDRESS_LIMIT / PAGE_SIZE + (PageEnd(ph) - PageStart(ph)) / PAGE_SIZE
  }

  /** The attribute of the last of the first n segments that touches the page, if any does. */
  function LastAttribute(phdrs: seq<Phdr>, n: nat, a: nat): Option<PageAttribute>
    requires n <= |phdrs|
  {
    if n == 0 then None
    else if Loadable(phdrs[n - 1]) && Touches(phdrs[n - 1], a) then Some(ReadPFlags(phdrs[n - 1].flags))
    else LastAttribute(phdrs, n - 1, a)
  }

  /** The translation with its leaf's rights replaced. */
  function Protected(t: Translation, attr: Option<PageAttribute>): Translation {
    if attr.Some? && t.Mapped? && t.leaf.Entry? then
      t.(leaf := t.leaf.(writable := attr.value == ReadWrite, noExecute := attr.value != Executable))
    else t
  }

  /** After the first n segments: every address translates where it did, with the last segment's rights. */
  ghost predicate ProtectedBy(phdrs: seq<Phdr>, n: nat, v: View, v': View, root: nat)
    requires n <= |phdrs|
  {
    forall a: nat | a < ADDRESS_LIMIT :: Walk(v', root, a) == Protected(Walk(v, root, a), LastAttribute(phdrs, n, a))
  }

  /** After i pages of the next segment as well. */
  ghost predicate ProtectedPart(ph: Phdr, attr: PageAttribute, i: nat, v: View, v': View, root: nat) {
    forall a: nat | a < ADDRESS_LIMIT ::
      Walk(v', root, a) ==
        if PageStart(ph) % ADDRESS_LIMIT / PAGE_SIZE <= a / PAGE_SIZE
           < PageStart(ph) % ADDRESS_LIMIT / PAGE_SIZE + i then
          Protected(Walk(v, root, a), Some(attr))
        else Walk(v, root, a)
  }

  /** Every page of the segment is mapped and lies in the clean range. */
  ghost predicate SegmentMapped(ph: Phdr, v: View, root: nat, lo: nat, hi: nat) {
    && lo <= PageStart(ph) % ADDRESS_LIMIT
    && PageStart(ph) % ADDRESS_LIMIT + (PageEnd(ph) - PageStart(ph)) <= hi <= ADDRESS_LIMIT
    && (forall a: nat | a < ADDRESS_LIMIT && Touches(ph, a) :: Walk(v, root, a).Mapped?)
  }

  /** The protection loop for one segment. */
  method ProtectSegment(
      ph: Phdr, mem: PhysicalMemory, cr3: nat, ghost tables: set<nat>, ghost lo: nat, ghost hi: nat, ghost open: bool)
    requires cr3 % PAGE_SIZE == 0 && Live(mem.words, cr3 / PAGE_SIZE, tables, lo, hi, open)
    requires SegmentMapped(ph, Decoded(mem.words), cr3 / PAGE_SIZE, lo, hi)
    modifies mem
    ensures Live(mem.words, cr3 / PAGE_SIZE, tables, lo, hi, open) && OnlyFrames(old(mem.words), mem.words, tables)
    ensures ProtectedPart(ph, ReadPFlags(ph.flags), (PageEnd(ph) - PageStart(ph)) / PAGE_SIZE,
                          Decoded(old(mem.words)), Decoded(mem.words), cr3 / PAGE_SIZE)
  {
    hide Live, Walk, WalkFrom;
    ghost var m0 := mem.words;
    var start, size := PageStart(ph), (PageEnd(ph) - PageStart(ph)) / PAGE_SIZE;
    var attr := ReadPFlags(ph.flags);
    for i := 0 to size
      invariant Live(mem.words, cr3 / PAGE_SIZE, tables, lo, hi, open) && OnlyFrames(m0, mem.words, tables)
      invariant ProtectedPart(ph, attr, i, Decoded(m0), Decoded(mem.words), cr3 / PAGE_SIZE)
    {
      ghost var m := mem.words;
      NextPage(ph, i);
      ghost var a := (start + PAGE_SIZE * i) % ADDRESS_LIMIT;
      assert Walk(Decoded(m0), cr3 / PAGE_SIZE, a).Mapped?;
      ChangeMap4k(start + PAGE_SIZE * i, attr, mem, cr3, tables, lo, hi, open);
      OneMoreProtected(ph, attr, i, Decoded(m0), Decoded(m), Decoded(mem.words), cr3 / PAGE_SIZE, a);
    }
  }

  lemma NextPage(ph: Phdr, i: nat)
    requires i < (PageEnd(ph) - PageStart(ph)) / PAGE_SIZE
    requires PageStart(ph) % ADDRESS_LIMIT + (PageEnd(ph) - PageStart(ph)) <= ADDRESS_LIMIT
    ensures var a := (PageStart(ph) + PAGE_SIZE * i) % ADDRESS_LIMIT;
            && a == PageStart(ph) % ADDRESS_LIMIT + PAGE_SIZE * i && Touches(ph, a)
            && a / PAGE_SIZE == PageStart(ph) % ADDRESS_LIMIT / PAGE_SIZE + i
            && a < PageStart(ph) % ADDRESS_LIMIT + (PageEnd(ph) - PageStart(ph))
  {
    var start, pages := PageStart(ph), (PageEnd(ph) - PageStart(ph)) / PAGE_SIZE;
    WholePages(ph);
    hide PageStart, PageEnd;
    AddWithin48Bits(start, PAGE_SIZE * i);
    AddPages(start % ADDRESS_LIMIT, i);
  }

  /** The pages of a segment are whole. */
  lemma WholePages(ph: Phdr)
    ensures PageStart(ph) % PAGE_SIZE == 0
    ensures PageEnd(ph) - PageStart(ph) == PAGE_SIZE * ((PageEnd(ph) - PageStart(ph)) / PAGE_SIZE)
  {
    var end := ph.vaddr + ph.memsz + (PAGE_SIZE - 1);
    ByPage(PageStart(ph), ph.vaddr / PAGE_SIZE, 0);
    ByPage(PageEnd(ph), end / PAGE_SIZE, 0);
    ByPage(PageEnd(ph) - PageStart(ph), end / PAGE_SIZE - ph.vaddr / PAGE_SIZE, 0);
  }

  lemma OneMoreProtected(
      ph: Phdr, attr: PageAttribute, i: nat, v: View, v': View, v'': View, root: nat, page: nat)
    requires ProtectedPart(ph, attr, i, v, v', root) && page < ADDRESS_LIMIT
    requires page / PAGE_SIZE == PageStart(ph) % ADDRESS_LIMIT / PAGE_SIZE + i
    requires forall a: nat | a < ADDRESS_LIMIT ::
               if Page(a, 1) == Page(page, 1) then
                 && Walk(v', root, a).Mapped? && Walk(v', root, a).leaf.Entry?
                 && Walk(v'', root, a) == Walk(v', root, a).(leaf := Walk(v', root, a).leaf.(
                      writable := attr == ReadWrite, noExecute := attr != Executable))
               else Walk(v'', root, a) == Walk(v', root, a)
    ensures ProtectedPart(ph, attr, i + 1, v, v'', root)
  {
    hide Walk, WalkFrom;
  }

  lemma SegmentProtected(phdrs: seq<Phdr>, n: nat, v: View, v': View, v'': View, root: nat)
    requires n < |phdrs| && ProtectedBy(phdrs, n, v, v', root)
    requires if Loadable(phdrs[n]) then
               ProtectedPart(phdrs[n], ReadPFlags(phdrs[n].flags),
                   (PageEnd(phdrs[n]) - PageStart(phdrs[n])) / PAGE_SIZE, v', v'', root)
             else v'' == v'
    ensures ProtectedBy(phdrs, n + 1, v, v'', root)
  {
    hide Walk, WalkFrom;
  }

  /** load_segment's protection, segment by segment. */
  method ProtectImage(
      phdrs: seq<Phdr>, mem: PhysicalMemory, cr3: nat,
      ghost tables: set<nat>, ghost lo: nat, ghost hi: nat, ghost open: bool)
    requires cr3 % PAGE_SIZE == 0 && Live(mem.words, cr3 / PAGE_SIZE, tables, lo, hi, open)
    requires forall i | 0 <= i < |phdrs| && Loadable(phdrs[i]) ::
               SegmentMapped(phdrs[i], Decoded(mem.words), cr3 / PAGE_SIZE, lo, hi)
    modifies mem
    ensures Live(mem.words, cr3 / PAGE_SIZE, tables, lo, hi, open) && OnlyFrames(old(mem.words), mem.words, tables)
    ensures ProtectedBy(phdrs, |phdrs|, Decoded(old(mem.words)), Decoded(mem.words), cr3 / PAGE_SIZE)
  {
    hide Live, Walk, WalkFrom, ProtectedPart;
    ghost var m0 := mem.words;
    for n := 0 to |phdrs|
      invariant Live(mem.words, cr3 / PAGE_SIZE, tables, lo, hi, open) && OnlyFrames(m0, mem.words, tables)
      invariant ProtectedBy(phdrs, n, Decoded(m0), Decoded(mem.words), cr3 / PAGE_SIZE)
    {
      ghost var m := mem.words;
      if Loadable(phdrs[n]) {
        StillMapped(phdrs, n, phdrs[n], Decoded(m0), Decoded(m), cr3 / PAGE_SIZE, lo, hi);
        ProtectSegment(phdrs[n], mem, cr3, tables, lo, hi, open);
      }
      SegmentProtected(phdrs, n, Decoded(m0), Decoded(m), Decoded(mem.words), cr3 / PAGE_SIZE);
    }
  }

  lemma StillMapped(phdrs: seq<Phdr>, n: nat, ph: Phdr, v: View, v': View, root: nat, lo: nat, hi: nat)
    requires n <= |phdrs| && ProtectedBy(phdrs, n, v, v', root) && SegmentMapped(ph, v, root, lo, hi)
    ensures SegmentMapped(ph, v', root, lo, hi)
  {
    hide Walk, WalkFrom;
  }

  // ---------------------------------------------------------------- the image as a whole

  /** Where byte k of a segment lies, counted in pages from the start of the mapped range. */
  lemma BytePlace(phdrs: seq<Phdr>, offset: nat, startVirt: nat, startPhys: nat, endPhys: nat, i: nat, k: nat)
    requires OneOffset(phdrs, offset) && Range(phdrs, |phdrs|, startVirt, startPhys, endPhys)
    requires i < |phdrs| && Loadable(phdrs[i]) && k < phdrs[i].memsz
    requires startVirt % ADDRESS_LIMIT + PageCount(startPhys, endPhys) * PAGE_SIZE <= ADDRESS_LIMIT
    requires RangeFits(startPhys, endPhys)
    ensures var d, s := phdrs[i].paddr + k - startPhys, startVirt % ADDRESS_LIMIT;
            && 0 <= d && (phdrs[i].vaddr + k) % ADDRESS_LIMIT == s + d
            && s % PAGE_SIZE == startPhys % PAGE_SIZE
            && s / PAGE_SIZE <= (s + d) / PAGE_SIZE < s / PAGE_SIZE + PageCount(startPhys, endPhys)
            && (startPhys / PAGE_SIZE + ((s + d) / PAGE_SIZE - s / PAGE_SIZE)) * PAGE_SIZE + (s + d) % PAGE_SIZE
               == phdrs[i].paddr + k
  {
    RangeOffset(phdrs, offset, startVirt, startPhys, endPhys);
    SegmentFacts(phdrs, offset, i);
    var d, s := phdrs[i].paddr + k - startPhys, startVirt % ADDRESS_LIMIT;
    assert phdrs[i].paddr >= startPhys && SegmentEnd(phdrs[i]) <= endPhys;
    CoverageCondition(startPhys, endPhys);
    assert InMappedPages(startPhys, endPhys, d);
    PlaceArithmetic(startVirt, startPhys, offset, s, d, PageCount(startPhys, endPhys));
  }

  lemma PlaceArithmetic(startVirt: nat, startPhys: nat, offset: nat, s: nat, d: nat, pages: nat)
    requires startVirt == startPhys + offset && offset % PAGE_SIZE == 0 && s == startVirt % ADDRESS_LIMIT
    requires (startPhys % PAGE_SIZE + d) / PAGE_SIZE < pages && s + pages * PAGE_SIZE <= ADDRESS_LIMIT
    ensures s % PAGE_SIZE == startPhys % PAGE_SIZE
    ensures s / PAGE_SIZE <= (s + d) / PAGE_SIZE < s / PAGE_SIZE + pages
    ensures (startPhys / PAGE_SIZE + ((s + d) / PAGE_SIZE - s / PAGE_SIZE)) * PAGE_SIZE + (s + d) % PAGE_SIZE
            == startPhys + d
    ensures (startVirt + d) % ADDRESS_LIMIT == s + d
  {
    OffsetIn48Bits(startVirt);
    AlignedOffset(startPhys, offset);
    Reassembled(startPhys, s, d);
    AddInPage(s, d);
    assert s + d < ADDRESS_LIMIT;
    AddWithin48Bits(startVirt, d);
  }

  lemma AlignedOffset(x: nat, offset: nat)
    requires offset % PAGE_SIZE == 0
    ensures (x + offset) % PAGE_SIZE == x % PAGE_SIZE
  {
  }

  lemma Reassembled(x: nat, s: nat, d: nat)
    requires s % PAGE_SIZE == x % PAGE_SIZE
    ensures (x / PAGE_SIZE + ((s + d) / PAGE_SIZE - s / PAGE_SIZE)) * PAGE_SIZE + (s + d) % PAGE_SIZE == x + d
  {
    AddInPage(s, d);
    AddInPage(x, d);
  }

  /** The page of byte k of a segment. */
  function PageOfByte(ph: Phdr, k: nat): nat {
    (ph.vaddr + k) % ADDRESS_LIMIT / PAGE_SIZE
  }

  /** Some byte of the segment lies in the page of a (48-bit) address. */
  ghost predicate HasPage(ph: Phdr, a: nat) {
    exists k: nat | k < ph.memsz :: PageOfByte(ph, k) == a / PAGE_SIZE
  }

  /** No segment after the i-th shares the address's page. */
  ghost predicate LastOnPage(phdrs: seq<Phdr>, i: nat, a: nat) {
    forall j | i < j < |phdrs| && phdrs[j].kind == 1 :: !HasPage(phdrs[j], a)
  }

  /** What the flags of a segment grant: bit 0 execution, and bit 1 writing unless bit 0 is set. */
  function Granted(flags: nat): Rights {
    Rights(flags % 2 == 0 && flags / 2 % 2 == 1, flags % 2 == 1, false)
  }

  /**
   * Every byte of every segment is mapped to its physical address by a leaf with
   * the rights of the last segment on its page, and no page is writable and
   * executable.
   */
  ghost predicate ImagePlaced(phdrs: seq<Phdr>, v: View, root: nat) {
    forall i, k: nat {:trigger PlacedByte(phdrs, i, k, v, root)} ::
      0 <= i < |phdrs| && phdrs[i].kind == 1 && k < phdrs[i].memsz ==> PlacedByte(phdrs, i, k, v, root)
  }

  ghost predicate PlacedByte(phdrs: seq<Phdr>, i: nat, k: nat, v: View, root: nat)
    requires i < |phdrs|
  {
    var a := (phdrs[i].vaddr + k) % ADDRESS_LIMIT;
    && Walk(v, root, a).Mapped? && Walk(v, root, a).phys == phdrs[i].paddr + k
    && !LeafAllowsBoth(Walk(v, root, a).leaf) && !WriteAndExecute(v, root, 4, a)
    && (LastOnPage(phdrs, i, a) ==> LeafGrants(Walk(v, root, a).leaf, Granted(phdrs[i].flags)))
  }

  predicate LeafGrants(leaf: Pte, r: Rights) {
    leaf.Entry? && leaf.writable == r.write && leaf.noExecute == !r.execute && leaf.user == r.user
  }

  /** And the tables above the leaf take none of these rights away. */
  ghost predicate ImageGranted(phdrs: seq<Phdr>, v: View, root: nat) {
    forall i, k: nat {:trigger GrantedByte(phdrs, i, k, v, root)} ::
      0 <= i < |phdrs| && phdrs[i].kind == 1 && k < phdrs[i].memsz ==> GrantedByte(phdrs, i, k, v, root)
  }

  ghost predicate GrantedByte(phdrs: seq<Phdr>, i: nat, k: nat, v: View, root: nat)
    requires i < |phdrs|
  {
    var a := (phdrs[i].vaddr + k) % ADDRESS_LIMIT;
    LastOnPage(phdrs, i, a) ==> RightsFrom(v, root, 4, a) == Granted(phdrs[i].flags)
  }

  /** The pages of a segment are those of its bytes. */
  lemma TouchedHasByte(ph: Phdr, a: nat)
    requires ph.memsz > 0 && ph.vaddr % ADDRESS_LIMIT + ph.memsz <= ADDRESS_LIMIT && Touches(ph, a)
    ensures HasPage(ph, a)
  {
    AddWithin48Bits(ph.vaddr, ph.memsz - 1);
    PagesOfSegment(ph);
    var v, p := ph.vaddr % ADDRESS_LIMIT, a / PAGE_SIZE;
    var k := if p * PAGE_SIZE <= v then 0 else p * PAGE_SIZE - v;
    hide PageStart, PageEnd;
    assert v + k <= v + ph.memsz - 1 && (v + k) / PAGE_SIZE == p;
    AddWithin48Bits(ph.vaddr, k);
    assert PageOfByte(ph, k) == p;
  }

  /** The last segment on a page decides its attribute. */
  lemma {:induction false} LastDecides(phdrs: seq<Phdr>, n: nat, i: nat, a: nat)
    requires i < n <= |phdrs| && Loadable(phdrs[i]) && Touches(phdrs[i], a)
    requires forall j | i < j < n && Loadable(phdrs[j]) :: !Touches(phdrs[j], a)
    ensures LastAttribute(phdrs, n, a) == Some(ReadPFlags(phdrs[i].flags))
  {
    if i < n - 1 {
      LastDecides(phdrs, n - 1, i, a);
    }
  }

  /** The leaf of a byte whose page no later segment shares. */
  lemma LeafOfLast(
      phdrs: seq<Phdr>, offset: nat, startVirt: nat, startPhys: nat, endPhys: nat, i: nat, a: nat,
      v1: View, v2: View, root: nat)
    requires OneOffset(phdrs, offset) && Range(phdrs, |phdrs|, startVirt, startPhys, endPhys)
    requires startVirt % ADDRESS_LIMIT + PageCount(startPhys, endPhys) * PAGE_SIZE <= ADDRESS_LIMIT
    requires RangeFits(startPhys, endPhys) && ProtectedBy(phdrs, |phdrs|, v1, v2, root) && a < ADDRESS_LIMIT
    requires i < |phdrs| && Loadable(phdrs[i]) && Touches(phdrs[i], a) && LastOnPage(phdrs, i, a)
    requires Walk(v1, root, a).Mapped? && Walk(v1, root, a).leaf.Entry? && !Walk(v1, root, a).leaf.user
    ensures LeafGrants(Walk(v2, root, a).leaf, Granted(phdrs[i].flags))
  {
    hide Walk, WalkFrom, OneOffset, Range, RangeFits, PageCount, Touches, HasPage, SegmentEnd;
    forall j | i < j < |phdrs| && Loadable(phdrs[j])
      ensures !Touches(phdrs[j], a)
    {
      if Touches(phdrs[j], a) {
        BytePlace(phdrs, offset, startVirt, startPhys, endPhys, j, 0);
        BytePlace(phdrs, offset, startVirt, startPhys, endPhys, j, phdrs[j].memsz - 1);
        ByteBelowLimit(phdrs[j]);
        TouchedHasByte(phdrs[j], a);
      }
    }
    LastDecides(phdrs, |phdrs|, i, a);
  }

  lemma ByteBelowLimit(ph: Phdr)
    requires ph.memsz > 0 && (ph.vaddr + (ph.memsz - 1)) % ADDRESS_LIMIT == ph.vaddr % ADDRESS_LIMIT + (ph.memsz - 1)
    ensures ph.vaddr % ADDRESS_LIMIT + ph.memsz <= ADDRESS_LIMIT
  {
  }

  lemma BytePlaced(
      phdrs: seq<Phdr>, offset: nat, startVirt: nat, startPhys: nat, endPhys: nat, i: nat, k: nat,
      v0: View, v1: View, v2: View, root: nat)
    requires OneOffset(phdrs, offset) && Range(phdrs, |phdrs|, startVirt, startPhys, endPhys)
    requires i < |phdrs| && Loadable(phdrs[i]) && k < phdrs[i].memsz
    requires startVirt % ADDRESS_LIMIT + PageCount(startPhys, endPhys) * PAGE_SIZE <= ADDRESS_LIMIT
    requires RangeFits(startPhys, endPhys)
    requires PagesMapped(v0, v1, root, startVirt % ADDRESS_LIMIT, startPhys, PageCount(startPhys, endPhys))
    requires ProtectedBy(phdrs, |phdrs|, v1, v2, root)
    ensures PlacedByte(phdrs, i, k, v2, root)
  {
    hide Walk, WalkFrom, OneOffset, Range, RangeFits, PageCount, WriteAndExecute;
    BytePlace(phdrs, offset, startVirt, startPhys, endPhys, i, k);
    BytePlace(phdrs, offset, startVirt, startPhys, endPhys, i, 0);
    var a := (phdrs[i].vaddr + k) % ADDRESS_LIMIT;
    ByteTouched(phdrs[i], k);
    SomeAttribute(phdrs, |phdrs|, i, a);
    assert Walk(v1, root, a).Mapped?;
    assert !LeafAllowsBoth(Walk(v2, root, a).leaf);
    RightsAtRoot(v2, root, a);
    if LastOnPage(phdrs, i, a) {
      LeafOfLast(phdrs, offset, startVirt, startPhys, endPhys, i, a, v1, v2, root);
    }
  }

  /** On clean paths the leaf's rights are the address's. */
  lemma ByteGranted(phdrs: seq<Phdr>, i: nat, k: nat, m: Words, root: nat)
    requires i < |phdrs| && PlacedByte(phdrs, i, k, Decoded(m), root)
    requires PathClean(m, root, (phdrs[i].vaddr + k) % ADDRESS_LIMIT, true)
    ensures GrantedByte(phdrs, i, k, Decoded(m), root)
  {
    hide PathClean, WriteAndExecute, LastOnPage;
    var a := (phdrs[i].vaddr + k) % ADDRESS_LIMIT;
    if LastOnPage(phdrs, i, a) {
      RootTable(m, root, a);
      CleanPathRights(m, root, 4, root, a);
    }
  }

  lemma RightsAtRoot(v: View, root: nat, a: nat)
    requires Walk(v, root, a).Mapped? && !LeafAllowsBoth(Walk(v, root, a).leaf)
    ensures !WriteAndExecute(v, root, 4, a)
  {
    LeafDecidesRights(v, root, 4, a);
  }

  lemma ByteTouched(ph: Phdr, k: nat)
    requires k < ph.memsz && (ph.vaddr + k) % ADDRESS_LIMIT == ph.vaddr % ADDRESS_LIMIT + k
    ensures Touches(ph, (ph.vaddr + k) % ADDRESS_LIMIT)
  {
    var o, base := ph.vaddr % PAGE_SIZE, PageStart(ph) % ADDRESS_LIMIT;
    OffsetIn48Bits(ph.vaddr);
    OffsetIn48Bits(PageStart(ph));
    PageStartIn48Bits(ph.vaddr);
    assert ph.vaddr % ADDRESS_LIMIT == base + o;
    AddInPage(base, o + k);
    SpanOfPages(ph, o + k);
  }

  lemma SpanOfPages(ph: Phdr, d: nat)
    requires d < ph.vaddr % PAGE_SIZE + ph.memsz
    ensures d / PAGE_SIZE < (PageEnd(ph) - PageStart(ph)) / PAGE_SIZE
  {
    WholePages(ph);
  }

  lemma {:induction false} SomeAttribute(phdrs: seq<Phdr>, n: nat, i: nat, a: nat)
    requires i < n <= |phdrs| && Loadable(phdrs[i]) && Touches(phdrs[i], a)
    ensures LastAttribute(phdrs, n, a).Some?
  {
    if i < n - 1 {
      SomeAttribute(phdrs, n - 1, i, a);
    }
  }

  /** The pages of a segment lie within the pages the loop mapped. */
  lemma SegmentIsMapped(
      phdrs: seq<Phdr>, offset: nat, startVirt: nat, startPhys: nat, endPhys: nat, i: nat,
      v0: View, v1: View, root: nat, lo: nat, hi: nat)
    requires OneOffset(phdrs, offset) && Range(phdrs, |phdrs|, startVirt, startPhys, endPhys)
    requires i < |phdrs| && Loadable(phdrs[i]) && startPhys < endPhys < WORD_LIMIT && RangeFits(startPhys, endPhys)
    requires RoomFor(startVirt, PageCount(startPhys, endPhys), lo, hi)
    requires PagesMapped(v0, v1, root, startVirt % ADDRESS_LIMIT, startPhys, PageCount(startPhys, endPhys))
    ensures SegmentMapped(phdrs[i], v1, root, lo, hi)
  {
    hide Walk, WalkFrom, OneOffset, Range, RangeFits, PageCount;
    var ph, s, pages := phdrs[i], startVirt % ADDRESS_LIMIT, PageCount(startPhys, endPhys);
    BytePlace(phdrs, offset, startVirt, startPhys, endPhys, i, 0);
    BytePlace(phdrs, offset, startVirt, startPhys, endPhys, i, ph.memsz - 1);
    PagesOfSegment(ph);
  }

  /** From the page of the first byte to the page of the last. */
  lemma PagesOfSegment(ph: Phdr)
    requires ph.memsz > 0 && (ph.vaddr + ph.memsz - 1) % ADDRESS_LIMIT == ph.vaddr % ADDRESS_LIMIT + ph.memsz - 1
    ensures PageStart(ph) % ADDRESS_LIMIT % PAGE_SIZE == 0 && (PageEnd(ph) - PageStart(ph)) % PAGE_SIZE == 0
    ensures PageStart(ph) % ADDRESS_LIMIT / PAGE_SIZE == ph.vaddr % ADDRESS_LIMIT / PAGE_SIZE
    ensures PageStart(ph) % ADDRESS_LIMIT / PAGE_SIZE + (PageEnd(ph) - PageStart(ph)) / PAGE_SIZE
            == (ph.vaddr % ADDRESS_LIMIT + ph.memsz - 1) / PAGE_SIZE + 1
  {
    var o, base := ph.vaddr % PAGE_SIZE, PageStart(ph) % ADDRESS_LIMIT;
    OffsetIn48Bits(ph.vaddr);
    PageStartIn48Bits(ph.vaddr);
    OffsetIn48Bits(PageStart(ph));
    AddInPage(base, o);
    AddInPage(base, o + ph.memsz - 1);
    LengthOfSpan(ph);
  }

  lemma LengthOfSpan(ph: Phdr)
    requires ph.memsz > 0
    ensures (PageEnd(ph) - PageStart(ph)) % PAGE_SIZE == 0
    ensures (PageEnd(ph) - PageStart(ph)) / PAGE_SIZE == (ph.vaddr % PAGE_SIZE + ph.memsz - 1) / PAGE_SIZE + 1
  {
  }

  /** The mapped range, rounded out to pages, lies within lo .. hi. */
  predicate RoomFor(startVirt: nat, pages: nat, lo: nat, hi: nat) {
    && lo <= startVirt % ADDRESS_LIMIT / PAGE_SIZE * PAGE_SIZE
    && startVirt % ADDRESS_LIMIT + pages * PAGE_SIZE <= hi <= ADDRESS_LIMIT
  }

  /** The image fits its rounded page count, and the addresses it needs. */
  ghost predicate Placeable(phdrs: seq<Phdr>, lo: nat, hi: nat) {
    forall startVirt, startPhys, endPhys {:trigger Range(phdrs, |phdrs|, startVirt, startPhys, endPhys)} ::
      0 <= startVirt && 0 <= startPhys < endPhys < WORD_LIMIT && Range(phdrs, |phdrs|, startVirt, startPhys, endPhys)
      ==> RangeFits(startPhys, endPhys) && RoomFor(startVirt, PageCount(startPhys, endPhys), lo, hi)
  }

  /**
   * Computing the range, mapping it and protecting the segments: each byte of
   * each segment then translates to its physical address, by a leaf with the
   * rights its flags grant unless a later segment shares the page, and no page of
   * the image is both writable and executable. If the references that were there
   * before forbid nothing, those are the rights in effect.
   */
  method PlaceImage(
      phdrs: seq<Phdr>, fw: Firmware, mem: PhysicalMemory, cr3: nat,
      ghost offset: nat, ghost tables: set<nat>, ghost lo: nat, ghost hi: nat, ghost open: bool)
    returns (r: Outcome, ghost tables': set<nat>)
    requires OneOffset(phdrs, offset) && Placeable(phdrs, lo, hi) && cr3 % PAGE_SIZE == 0
    requires PoolOk(fw.pool, tables) && Live(mem.words, cr3 / PAGE_SIZE, tables, lo, hi, open)
    modifies fw, mem
    ensures r == Done ==> ImagePlaced(phdrs, Decoded(mem.words), cr3 / PAGE_SIZE)
    ensures r == Done && open ==> ImageGranted(phdrs, Decoded(mem.words), cr3 / PAGE_SIZE)
    ensures r == Done ==> Live(mem.words, cr3 / PAGE_SIZE, tables', lo, hi, open)
  {
    hide Live, Walk, WalkFrom, PoolOk, OneOffset, PagesMapped, ProtectedBy, SegmentMapped, WriteAndExecute, RangeFits,
         PathClean, LastOnPage, PlacedByte, GrantedByte;
    OffsetBounds(phdrs, offset);
    var startVirt, startPhys, endPhys := ComputeKernelMemoryRange(phdrs);
    RangeOffset(phdrs, offset, startVirt, startPhys, endPhys);
    hide Range;
    var pages := PageCount(startPhys, endPhys);
    PageCountNoWrap(startPhys, endPhys);
    ghost var v0 := Decoded(mem.words);
    r, tables' := MapImage(startVirt, startPhys, pages, fw, mem, cr3, tables, lo, hi, open);
    if r != Done {
      return;
    }
    ghost var v1 := Decoded(mem.words);
    forall i | 0 <= i < |phdrs| && Loadable(phdrs[i])
      ensures SegmentMapped(phdrs[i], v1, cr3 / PAGE_SIZE, lo, hi)
    {
      SegmentIsMapped(phdrs, offset, startVirt, startPhys, endPhys, i, v0, v1, cr3 / PAGE_SIZE, lo, hi);
    }
    ProtectImage(phdrs, mem, cr3, tables', lo, hi, open);
    forall i, k: nat | 0 <= i < |phdrs| && phdrs[i].kind == 1 && k < phdrs[i].memsz
      ensures PlacedByte(phdrs, i, k, Decoded(mem.words), cr3 / PAGE_SIZE)
      ensures open ==> GrantedByte(phdrs, i, k, Decoded(mem.words), cr3 / PAGE_SIZE)
    {
      BytePlaced(phdrs, offset, startVirt, startPhys, endPhys, i, k, v0, v1, Decoded(mem.words), cr3 / PAGE_SIZE);
      ByteOnCleanPath(phdrs, offset, startVirt, startPhys, endPhys, i, k, mem.words, cr3 / PAGE_SIZE, tables', lo, hi,
          open);
      if open {
        ByteGranted(phdrs, i, k, mem.words, cr3 / PAGE_SIZE);
      }
    }
  }

  lemma ByteOnCleanPath(
      phdrs: seq<Phdr>, offset: nat, startVirt: nat, startPhys: nat, endPhys: nat, i: nat, k: nat,
      m: Words, root: nat, tables: set<nat>, lo: nat, hi: nat, open: bool)
    requires OneOffset(phdrs, offset) && Range(phdrs, |phdrs|, startVirt, startPhys, endPhys)
    requires i < |phdrs| && Loadable(phdrs[i]) && k < phdrs[i].memsz && RangeFits(startPhys, endPhys)
    requires RoomFor(startVirt, PageCount(startPhys, endPhys), lo, hi) && Live(m, root, tables, lo, hi, open)
    ensures PathClean(m, root, (phdrs[i].vaddr + k) % ADDRESS_LIMIT, open)
  {
    hide OneOffset, Range, RangeFits, PageCount, PathClean, Tree, TablesIn;
    BytePlace(phdrs, offset, startVirt, startPhys, endPhys, i, k);
  }

  lemma OffsetBounds(phdrs: seq<Phdr>, offset: nat)
    requires OneOffset(phdrs, offset)
    ensures offset % PAGE_SIZE == 0
    ensures forall i | 0 <= i < |phdrs| :: phdrs[i].vaddr < WORD_LIMIT && phdrs[i].paddr < WORD_LIMIT
  {
  }

  /** When the range does not fit its page count, the mapping loop leaves the image's last byte as it was. */
  lemma LastByteLeftOut(
      phdrs: seq<Phdr>, offset: nat, startVirt: nat, startPhys: nat, endPhys: nat, v0: View, v1: View, root: nat)
    requires OneOffset(phdrs, offset) && Range(phdrs, |phdrs|, startVirt, startPhys, endPhys)
    requires startPhys < endPhys < WORD_LIMIT && !RangeFits(startPhys, endPhys)
    requires startVirt % ADDRESS_LIMIT + (endPhys - startPhys) <= ADDRESS_LIMIT
    requires PagesMapped(v0, v1, root, startVirt % ADDRESS_LIMIT, startPhys, PageCount(startPhys, endPhys))
    ensures exists i :: 0 <= i < |phdrs| && Loadable(phdrs[i])
              && var a := (phdrs[i].vaddr + phdrs[i].memsz - 1) % ADDRESS_LIMIT; Walk(v1, root, a) == Walk(v0, root, a)
  {
    hide Walk, WalkFrom, OneOffset, Range, RangeFits, SegmentEnd, PageCount;
    RangeOffset(phdrs, offset, startVirt, startPhys, endPhys);
    OffsetBounds(phdrs, offset);
    var i :| 0 <= i < |phdrs| && Loadable(phdrs[i]) && SegmentEnd(phdrs[i]) == endPhys;
    SegmentFacts(phdrs, offset, i);
    LastByteBeyond(startVirt, startPhys, endPhys, offset);
    assert phdrs[i].vaddr + phdrs[i].memsz - 1 == startVirt + (endPhys - startPhys - 1);
  }

  lemma LastByteBeyond(startVirt: nat, startPhys: nat, endPhys: nat, offset: nat)
    requires startVirt == startPhys + offset && offset % PAGE_SIZE == 0
    requires startPhys < endPhys < WORD_LIMIT - PAGE_SIZE && !RangeFits(startPhys, endPhys)
    requires startVirt % ADDRESS_LIMIT + (endPhys - startPhys) <= ADDRESS_LIMIT
    ensures var a := (startVirt + (endPhys - startPhys - 1)) % ADDRESS_LIMIT;
            a < ADDRESS_LIMIT && a / PAGE_SIZE >= startVirt % ADDRESS_LIMIT / PAGE_SIZE + PageCount(startPhys, endPhys)
  {
    var d := endPhys - startPhys - 1;
    AddWithin48Bits(startVirt, d);
    OffsetIn48Bits(startVirt);
    AlignedOffset(startPhys, offset);
    AddInPage(startVirt % ADDRESS_LIMIT, d);
    LastPage(startPhys % PAGE_SIZE, d);
    PageCountNoWrap(startPhys, endPhys);
  }
}
