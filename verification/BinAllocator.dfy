/**
 * The bin allocator (ymirc/bin_allocator.c): chunks of seven sizes carved out of
 * whole pages. The free chunks of a size form a linked list whose links are
 * stored in the chunks themselves, in the same physical memory everything else
 * lives in. Lists and sets below name chunks by physical address; the pointers
 * the code handles are those addresses converted by phys2virt.
 */
module BinAllocator {
  import opened Bits
  import opened Memory
  import opened PageAllocator
  import opened Arithmetic

  const BIN_SIZE_NUM: nat := 7

  function BinSize(b: nat): nat {
    if b == 0 then 0x20 else if b == 1 then 0x40 else if b == 2 then 0x80 else if b == 3 then 0x100
    else if b == 4 then 0x200 else if b == 5 then 0x400 else 0x800
  }

  /** The largest size the bins serve. */
  const LARGEST_BIN: nat := 0x800

  /** The smallest bin that holds a size, for sizes the bins serve. */
  function BinOf(n: nat): (b: nat)
    ensures b < BIN_SIZE_NUM
    ensures n <= LARGEST_BIN <==> n <= BinSize(b)
    ensures n <= LARGEST_BIN ==> forall c | 0 <= c < b :: n > BinSize(c)
  {
    if n <= 0x20 then 0 else if n <= 0x40 then 1 else if n <= 0x80 then 2 else if n <= 0x100 then 3
    else if n <= 0x200 then 4 else if n <= 0x400 then 5 else 6
  }

  /** PAGE_SIZE / bin_size. */
  function ChunksPerPage(b: nat): nat {
    if b == 0 then 128 else if b == 1 then 64 else if b == 2 then 32 else if b == 3 then 16
    else if b == 4 then 8 else if b == 5 then 4 else 2
  }

  /** i * bin_size. */
  function ChunkOffset(b: nat, i: nat): nat {
    if b == 0 then i * 0x20 else if b == 1 then i * 0x40 else if b == 2 then i * 0x80 else if b == 3 then i * 0x100
    else if b == 4 then i * 0x200 else if b == 5 then i * 0x400 else i * 0x800
  }

  /** is_aligned_to_bin: offset % bin_size == 0 within the page. */
  predicate AlignedToBin(b: nat, addr: nat) {
    var offset := addr % PAGE_SIZE;
    if b == 0 then offset % 0x20 == 0 else if b == 1 then offset % 0x40 == 0 else if b == 2 then offset % 0x80 == 0
    else if b == 3 then offset % 0x100 == 0 else if b == 4 then offset % 0x200 == 0
    else if b == 5 then offset % 0x400 == 0 else offset % 0x800 == 0
  }

  /** The sizes are the powers of two from 32, and the three tables above follow from them. */
  lemma BinTables(b: nat, i: nat, addr: nat)
    requires b < 7
    ensures BinSize(b) == 32 * Pow2(b) && BIN_SIZE_NUM == 7 && LARGEST_BIN == 32 * Pow2(6)
    ensures ChunksPerPage(b) * BinSize(b) == 4096 && ChunkOffset(b, i) == i * BinSize(b)
    ensures BinSize(b) > 0 && (AlignedToBin(b, addr) <==> addr % 4096 % BinSize(b) == 0)
  {
    assert Pow2(0) == 1 && Pow2(1) == 2 && Pow2(2) == 4 && Pow2(3) == 8 && Pow2(4) == 16 && Pow2(5) == 32
           && Pow2(6) == 64;
  }

  /** The chunks of a bin are the aligned addresses in the bin's pages. */
  predicate IsChunk(b: nat, pages: set<nat>, x: nat) {
    x / PAGE_SIZE in pages && AlignedToBin(b, x)
  }

  /** A chunk ends within its page. */
  lemma ChunkInPage(b: nat, x: nat)
    requires b < BIN_SIZE_NUM && AlignedToBin(b, x)
    ensures x % 0x20 == 0 && (x + BinSize(b) - 1) / PAGE_SIZE == x / PAGE_SIZE
  {
    hide ChunkOffset, BinSize, AlignedToBin, ChunksPerPage;
    var i := ChunkIndex(b, x);
    OffsetEnds(b, i);
    BinIsPositive(b);
    InPageBy32(x / PAGE_SIZE, ChunkOffset(b, i));
    ByPage(x + BinSize(b) - 1, x / PAGE_SIZE, ChunkOffset(b, i) + BinSize(b) - 1);
  }

  lemma BinIsPositive(b: nat)
    ensures BinSize(b) >= 0x20
  {
  }

  lemma OffsetEnds(b: nat, i: nat)
    requires b < BIN_SIZE_NUM && i < ChunksPerPage(b)
    ensures ChunkOffset(b, i) % 0x20 == 0 && ChunkOffset(b, i) + BinSize(b) <= PAGE_SIZE
  {
  }

  /** Two chunks of one bin do not overlap. */
  lemma ChunksApart(b: nat, x: nat, y: nat)
    requires b < BIN_SIZE_NUM && AlignedToBin(b, x) && AlignedToBin(b, y) && x < y
    ensures x + BinSize(b) <= y
  {
    if x / PAGE_SIZE == y / PAGE_SIZE {
      var i := ChunkIndex(b, x);
      var j := ChunkIndex(b, y);
      assert i < j;
    } else {
      ChunkInPage(b, x);
    }
  }

  lemma OffsetFacts(b: nat, f: nat, i: nat)
    requires b < BIN_SIZE_NUM && i < ChunksPerPage(b)
    ensures var x := f * PAGE_SIZE + ChunkOffset(b, i);
            AlignedToBin(b, x) && x / PAGE_SIZE == f && x % PAGE_SIZE == ChunkOffset(b, i)
  {
  }

  /** Every chunk of a page has an index. */
  lemma ChunkIndex(b: nat, x: nat) returns (i: nat)
    requires b < BIN_SIZE_NUM && AlignedToBin(b, x)
    ensures i < ChunksPerPage(b) && x == x / PAGE_SIZE * PAGE_SIZE + ChunkOffset(b, i)
  {
    var o := x % PAGE_SIZE;
    i := if b == 0 then o / 0x20 else if b == 1 then o / 0x40 else if b == 2 then o / 0x80 else if b == 3 then o / 0x100
         else if b == 4 then o / 0x200 else if b == 5 then o / 0x400 else o / 0x800;
  }

  // ---------------------------------------------------------------- the lists

  /** The physical memory the allocators can reach. */
  const MANAGED: nat := 0x20_0000_0000

  /** Following next from `head` visits exactly xs and then ends. */
  ghost predicate Linked(m: Words, reconstructed: bool, head: nat, xs: seq<nat>) {
    && (forall i | 0 <= i < |xs| :: xs[i] < MANAGED && xs[i] % 8 == 0)
    && head == Pointer(reconstructed, xs, 0)
    && (forall i | 0 <= i < |xs| :: Value(At(m, xs[i] / 8)) == Pointer(reconstructed, xs, i + 1))
  }

  /** The pointer to the i-th chunk of a list; NULL past its end. */
  ghost function Pointer(reconstructed: bool, xs: seq<nat>, i: nat): nat {
    if i < |xs| && xs[i] < WORD_LIMIT then Phys2Virt(reconstructed, xs[i]) else 0
  }

  ghost predicate NoDuplicates(xs: seq<nat>) {
    forall i, j | 0 <= i < j < |xs| :: xs[i] != xs[j]
  }

  lemma LinkedKept(m: Words, n: Words, reconstructed: bool, head: nat, xs: seq<nat>)
    requires Linked(m, reconstructed, head, xs) && forall x | x in xs :: At(n, x / 8) == At(m, x / 8)
    ensures Linked(n, reconstructed, head, xs)
  {
  }

  lemma HeadIsPointer(m: Words, reconstructed: bool, head: nat, xs: seq<nat>)
    requires Linked(m, reconstructed, head, xs)
    ensures head < WORD_LIMIT && Value(ToWord(head)) == head == Pointer(reconstructed, xs, 0)
  {
    WordRoundTrip(head);
  }

  /** push: the new chunk's first word becomes the old head, and nothing else is written. */
  lemma PushLinked(m: Words, reconstructed: bool, head: nat, xs: seq<nat>, x: nat, w: Word)
    requires Linked(m, reconstructed, head, xs) && x !in xs && 0 < x < MANAGED && x % 8 == 0
    requires Value(w) == Pointer(reconstructed, xs, 0)
    ensures Linked(m[x / 8 := w], reconstructed, Phys2Virt(reconstructed, x), [x] + xs)
  {
    hide Value, Phys2Virt, Pointer;
    var n, ys := m[x / 8 := w], [x] + xs;
    forall i | 0 <= i < |ys|
      ensures ys[i] < MANAGED && ys[i] % 8 == 0
      ensures Value(At(n, ys[i] / 8)) == Pointer(reconstructed, ys, i + 1)
    {
      SamePointer(reconstructed, x, xs, i);
      if i > 0 {
        assert ys[i] == xs[i - 1] && xs[i - 1] in xs;
        LinkWordsDiffer(x, xs[i - 1]);
        assert Value(At(m, xs[i - 1] / 8)) == Pointer(reconstructed, xs, i);
      }
    }
    FirstPointer(reconstructed, x, xs);
  }

  lemma FirstPointer(reconstructed: bool, x: nat, xs: seq<nat>)
    requires x < MANAGED
    ensures Pointer(reconstructed, [x] + xs, 0) == Phys2Virt(reconstructed, x)
  {
  }

  lemma LinkWordsDiffer(x: nat, y: nat)
    requires x % 8 == 0 && y % 8 == 0 && x != y
    ensures x / 8 != y / 8
  {
  }

  lemma SamePointer(reconstructed: bool, x: nat, xs: seq<nat>, i: nat)
    ensures Pointer(reconstructed, [x] + xs, i + 1) == Pointer(reconstructed, xs, i)
  {
  }

  /** pop: the head's link leads to the rest of the list. */
  lemma PopLinked(m: Words, reconstructed: bool, head: nat, xs: seq<nat>)
    requires Linked(m, reconstructed, head, xs) && xs != []
    ensures head == Phys2Virt(reconstructed, xs[0])
    ensures Linked(m, reconstructed, Value(At(m, xs[0] / 8)), xs[1..])
  {
    hide Value, Phys2Virt;
    var ys := xs[1..];
    forall i | 0 <= i < |ys|
      ensures ys[i] < MANAGED && ys[i] % 8 == 0 && Value(At(m, ys[i] / 8)) == Pointer(reconstructed, ys, i + 1)
    {
      assert ys[i] == xs[i + 1];
    }
  }

  // ---------------------------------------------------------------- one bin

  /**
   * A bin's list is acyclic, and its free and live chunks are disjoint and are
   * together exactly the chunks of its pages: none is lost, none is double.
   */
  ghost predicate BinOk(
      m: Words, reconstructed: bool, b: nat, head: nat, xs: seq<nat>, live: set<nat>, pages: set<nat>)
  {
    && Linked(m, reconstructed, head, xs) && Accounts(b, xs, live, pages)
    && (forall f | f in pages :: 1 <= f < 0x200_0000)
  }

  /** Every chunk of the pages is free or live, and never both or twice. */
  ghost predicate Accounts(b: nat, xs: seq<nat>, live: set<nat>, pages: set<nat>) {
    && NoDuplicates(xs)
    && (forall x | x in xs :: x !in live)
    && (forall x: nat :: x in xs || x in live <==> IsChunk(b, pages, x))
  }

  lemma AccountsPush(b: nat, xs: seq<nat>, live: set<nat>, pages: set<nat>, x: nat)
    requires Accounts(b, xs, live, pages) && x in live
    ensures Accounts(b, [x] + xs, live - {x}, pages)
  {
    hide IsChunk;
    var ys := [x] + xs;
    forall y: nat
      ensures y in ys || y in live - {x} <==> IsChunk(b, pages, y)
    {
      assert y in ys <==> y == x || y in xs;
      assert y in xs || y in live <==> IsChunk(b, pages, y);
    }
    forall i, j | 0 <= i < j < |ys|
      ensures ys[i] != ys[j]
    {
      assert ys[j] == xs[j - 1] && xs[j - 1] in xs;
    }
  }

  lemma AccountsPop(b: nat, xs: seq<nat>, live: set<nat>, pages: set<nat>)
    requires Accounts(b, xs, live, pages) && xs != []
    ensures Accounts(b, xs[1..], live + {xs[0]}, pages)
  {
    hide IsChunk;
    var rest := xs[1..];
    forall y: nat
      ensures y in rest ==> y != xs[0] && y in xs
      ensures y in rest || y in live + {xs[0]} <==> IsChunk(b, pages, y)
    {
      if y in rest {
        var j :| 0 <= j < |rest| && rest[j] == y;
        assert xs[j + 1] == y;
      }
      assert y in xs <==> y == xs[0] || y in rest;
      assert y in xs || y in live <==> IsChunk(b, pages, y);
    }
    forall i, j | 0 <= i < j < |rest|
      ensures rest[i] != rest[j]
    {
      assert rest[i] == xs[i + 1] && rest[j] == xs[j + 1];
    }
  }

  lemma BinElsewhere(
      m: Words, n: Words, reconstructed: bool, b: nat, head: nat, xs: seq<nat>, live: set<nat>, pages: set<nat>,
      frames: set<nat>)
    requires BinOk(m, reconstructed, b, head, xs, live, pages) && OnlyFrames(m, n, frames) && frames !! pages
    ensures BinOk(n, reconstructed, b, head, xs, live, pages)
  {
    forall x | x in xs
      ensures At(n, x / 8) == At(m, x / 8)
    {
      assert IsChunk(b, pages, x);
      assert x / 8 / 512 == x / PAGE_SIZE;
    }
    LinkedKept(m, n, reconstructed, head, xs);
  }

  lemma BinPushed(
      m: Words, reconstructed: bool, b: nat, head: nat, xs: seq<nat>, live: set<nat>, pages: set<nat>, x: nat)
    requires BinOk(m, reconstructed, b, head, xs, live, pages) && b < BIN_SIZE_NUM && x in live
    ensures head < WORD_LIMIT && 0 < x < MANAGED && x % 0x20 == 0
    ensures BinOk(m[x / 8 := ToWord(head)], reconstructed, b, Phys2Virt(reconstructed, x), [x] + xs, live - {x}, pages)
  {
    hide AlignedToBin, Linked, ToWord, Value, Phys2Virt, Accounts;
    LiveParts(m, reconstructed, b, head, xs, live, pages, x);
    HeadIsPointer(m, reconstructed, head, xs);
    PushLinked(m, reconstructed, head, xs, x, ToWord(head));
    AccountsPush(b, xs, live, pages, x);
  }

  lemma BinPopped(m: Words, reconstructed: bool, b: nat, head: nat, xs: seq<nat>, live: set<nat>, pages: set<nat>)
    requires BinOk(m, reconstructed, b, head, xs, live, pages) && xs != []
    ensures xs[0] in xs && xs[0] < MANAGED && head == Phys2Virt(reconstructed, xs[0])
    ensures BinOk(m, reconstructed, b, Value(At(m, xs[0] / 8)), xs[1..], live + {xs[0]}, pages)
  {
    hide Linked, ToWord, Value, Phys2Virt, Accounts;
    LinkAt(m, reconstructed, head, xs, 0);
    PopLinked(m, reconstructed, head, xs);
    AccountsPop(b, xs, live, pages);
  }

  // ---------------------------------------------------------------- freeing what is not live

  /** No sequence of chunks puts the bin in order. */
  ghost predicate Disordered(m: Words, reconstructed: bool, b: nat, head: nat, live: set<nat>, pages: set<nat>) {
    forall xs: seq<nat> :: !BinOk(m, reconstructed, b, head, xs, live, pages)
  }

  /** Pointers tell chunks apart. */
  lemma PointersDiffer(reconstructed: bool, x: nat, y: nat)
    requires x < MANAGED && y < MANAGED && Phys2Virt(reconstructed, x) == Phys2Virt(reconstructed, y)
    ensures x == y
  {
    ConversionRoundTrip(reconstructed, reconstructed, x);
    ConversionRoundTrip(reconstructed, reconstructed, y);
  }

  /** The i-th chunk of a list, by the pointer to it. */
  lemma ChunkAt(m: Words, reconstructed: bool, head: nat, ys: seq<nat>, i: nat, x: nat)
    requires Linked(m, reconstructed, head, ys) && 0 < x < MANAGED
    requires Pointer(reconstructed, ys, i) == Phys2Virt(reconstructed, x)
    ensures i < |ys| && ys[i] == x
  {
    ConversionRoundTrip(reconstructed, reconstructed, x);
    if i < |ys| {
      PointersDiffer(reconstructed, x, ys[i]);
    }
  }

  /**
   * A list that starts with the chunk x freed for the second time goes on with
   * the old list, up to where x stood in it.
   */
  lemma {:induction false} Chase(
      m: Words, n: Words, reconstructed: bool, head: nat, xs: seq<nat>, x: nat, ys: seq<nat>, i: nat, p: nat)
    requires Linked(m, reconstructed, head, xs) && NoDuplicates(xs) && forall y | y in xs :: y > 0
    requires 0 < x < MANAGED && x % 8 == 0 && i <= p < |xs| && xs[p] == x
    requires n == m[x / 8 := ToWord(head)] && Linked(n, reconstructed, Phys2Virt(reconstructed, x), ys)
    ensures i + 1 < |ys| && ys[i + 1] == xs[i]
  {
    hide Value, Phys2Virt, ToWord, Linked, Pointer;
    LinkAt(m, reconstructed, head, xs, i);
    if i == 0 {
      HeadChunk(n, reconstructed, Phys2Virt(reconstructed, x), ys, x);
      HeadIsPointer(m, reconstructed, head, xs);
      LinkAt(n, reconstructed, Phys2Virt(reconstructed, x), ys, 0);
    } else {
      Chase(m, n, reconstructed, head, xs, x, ys, i - 1, p);
      LinkAt(m, reconstructed, head, xs, i - 1);
      LinkAt(n, reconstructed, Phys2Virt(reconstructed, x), ys, i);
      LinkWordsDiffer(x, xs[i - 1]);
    }
    PointerToChunk(reconstructed, xs, i);
    assert xs[i] in xs;
    ChunkAt(n, reconstructed, Phys2Virt(reconstructed, x), ys, i + 1, xs[i]);
  }

  lemma LinkAt(m: Words, reconstructed: bool, head: nat, xs: seq<nat>, i: nat)
    requires Linked(m, reconstructed, head, xs) && i < |xs|
    ensures xs[i] < MANAGED && xs[i] % 8 == 0 && Value(At(m, xs[i] / 8)) == Pointer(reconstructed, xs, i + 1)
  {
  }

  lemma PointerToChunk(reconstructed: bool, xs: seq<nat>, i: nat)
    requires i < |xs| && xs[i] < MANAGED
    ensures Pointer(reconstructed, xs, i) == Phys2Virt(reconstructed, xs[i])
  {
  }

  /** Freeing an aligned chunk that is not live leaves a list that no sequence of chunks describes. */
  lemma DisorderAfterFree(
      m: Words, reconstructed: bool, b: nat, head: nat, xs: seq<nat>, live: set<nat>, pages: set<nat>, x: nat,
      ys: seq<nat>)
    requires BinOk(m, reconstructed, b, head, xs, live, pages) && b < BIN_SIZE_NUM
    requires AlignedToBin(b, x) && x !in live && 0 < x < MANAGED
    ensures !BinOk(m[x / 8 := ToWord(head)], reconstructed, b, Phys2Virt(reconstructed, x), ys, live, pages)
  {
    hide Value, Phys2Virt, ToWord, AlignedToBin, Linked;
    var n, ptr := m[x / 8 := ToWord(head)], Phys2Virt(reconstructed, x);
    if BinOk(n, reconstructed, b, ptr, ys, live, pages) {
      HeadChunk(n, reconstructed, ptr, ys, x);
      assert x in ys;
      assert IsChunk(b, pages, x);
      var p :| 0 <= p < |xs| && xs[p] == x;
      ChunkInPage(b, x);
      ChunksPositive(b, pages, xs);
      ChunkAddress(x);
      Chase(m, n, reconstructed, head, xs, x, ys, p, p);
    }
  }

  lemma HeadChunk(m: Words, reconstructed: bool, head: nat, ys: seq<nat>, x: nat)
    requires Linked(m, reconstructed, head, ys) && 0 < x < MANAGED && head == Phys2Virt(reconstructed, x)
    ensures ys != [] && ys[0] == x
  {
    ChunkAt(m, reconstructed, head, ys, 0, x);
  }

  lemma ChunksPositive(b: nat, pages: set<nat>, xs: seq<nat>)
    requires forall x | x in xs :: IsChunk(b, pages, x)
    requires forall f | f in pages :: f >= 1
    ensures forall x | x in xs :: x > 0
  {
    forall x | x in xs
      ensures x > 0
    {
      assert IsChunk(b, pages, x);
    }
  }

  // ---------------------------------------------------------------- a new page

  /** The chunks of a page from index i on, in address order. */
  ghost function PageChunks(f: nat, b: nat, i: nat): seq<nat>
    decreases ChunksPerPage(b) - i
  {
    if i >= ChunksPerPage(b) then [] else [f * PAGE_SIZE + ChunkOffset(b, i)] + PageChunks(f, b, i + 1)
  }

  lemma {:induction false} PageChunksAre(f: nat, b: nat, i: nat)
    requires b < BIN_SIZE_NUM && i <= ChunksPerPage(b)
    ensures NoDuplicates(PageChunks(f, b, i))
    ensures forall x: nat :: x in PageChunks(f, b, i) <==>
              x / PAGE_SIZE == f && AlignedToBin(b, x) && x % PAGE_SIZE >= ChunkOffset(b, i)
    decreases ChunksPerPage(b) - i
  {
    if i < ChunksPerPage(b) {
      PageChunksAre(f, b, i + 1);
      OffsetFacts(b, f, i);
      var first := f * PAGE_SIZE + ChunkOffset(b, i);
      forall x: nat
        ensures x in PageChunks(f, b, i)
                <==> x / PAGE_SIZE == f && AlignedToBin(b, x) && x % PAGE_SIZE >= ChunkOffset(b, i)
      {
        if AlignedToBin(b, x) {
          NextOffset(b, i, x);
        }
      }
    } else {
      forall x: nat
        ensures !(x / PAGE_SIZE == f && AlignedToBin(b, x) && x % PAGE_SIZE >= ChunkOffset(b, i))
      {
      }
    }
  }

  lemma NextOffset(b: nat, i: nat, x: nat)
    requires b < BIN_SIZE_NUM && AlignedToBin(b, x)
    ensures x % PAGE_SIZE >= ChunkOffset(b, i)
            <==> x % PAGE_SIZE == ChunkOffset(b, i) || x % PAGE_SIZE >= ChunkOffset(b, i + 1)
  {
    hide AlignedToBin, ChunkOffset;
    var j := ChunkIndex(b, x);
    OffsetsOrdered(b, i, j);
  }

  lemma OffsetsOrdered(b: nat, i: nat, j: nat)
    ensures ChunkOffset(b, j) >= ChunkOffset(b, i)
            <==> ChunkOffset(b, j) == ChunkOffset(b, i) || ChunkOffset(b, j) >= ChunkOffset(b, i + 1)
  {
    hide ChunkOffset;
    OffsetsAscend(b, i);
    OffsetsAscend(b, j);
    if j < i {
      OffsetsMonotone(b, j + 1, i);
    } else if i < j {
      OffsetsMonotone(b, i + 1, j);
    }
  }

  lemma OffsetsMonotone(b: nat, i: nat, j: nat)
    requires i <= j
    ensures ChunkOffset(b, i) <= ChunkOffset(b, j)
  {
  }

  /** A bin that receives all chunks of a new page. */
  lemma BinGrown(
      m: Words, n: Words, reconstructed: bool, b: nat, head: nat, head': nat, xs: seq<nat>, ys: seq<nat>,
      live: set<nat>, pages: set<nat>, f: nat)
    requires BinOk(m, reconstructed, b, head, xs, live, pages) && b < BIN_SIZE_NUM
    requires f !in pages && 1 <= f < 0x200_0000
    requires NoDuplicates(ys) && forall x: nat :: x in ys <==> x / PAGE_SIZE == f && AlignedToBin(b, x)
    requires Linked(n, reconstructed, head', ys + xs)
    ensures BinOk(n, reconstructed, b, head', ys + xs, live, pages + {f})
  {
    hide AlignedToBin, Linked;
    GrownChunks(b, f, ys, xs, live, pages);
    forall x | x in ys
      ensures x !in live && x !in xs
    {
      assert !IsChunk(b, pages, x);
    }
    JoinedLists(ys, xs);
    hide NoDuplicates, IsChunk;
    assert Accounts(b, ys + xs, live, pages + {f});
  }

  lemma GrownChunks(b: nat, f: nat, ys: seq<nat>, xs: seq<nat>, live: set<nat>, pages: set<nat>)
    requires forall x: nat :: x in ys <==> x / PAGE_SIZE == f && AlignedToBin(b, x)
    requires forall x: nat :: x in xs || x in live <==> IsChunk(b, pages, x)
    ensures forall x: nat :: x in ys + xs || x in live <==> IsChunk(b, pages + {f}, x)
  {
    hide AlignedToBin;
    forall x: nat
      ensures x in ys + xs || x in live <==> IsChunk(b, pages + {f}, x)
    {
      assert x in xs || x in live <==> IsChunk(b, pages, x);
      assert x in ys + xs <==> x in ys || x in xs;
    }
  }

  lemma JoinedLists(xs: seq<nat>, ys: seq<nat>)
    requires NoDuplicates(xs) && NoDuplicates(ys) && forall x | x in xs :: x !in ys
    ensures NoDuplicates(xs + ys)
    ensures forall x: nat :: x in xs + ys <==> x in xs || x in ys
  {
    forall i, j | 0 <= i < j < |xs + ys|
      ensures (xs + ys)[i] != (xs + ys)[j]
    {
      if i < |xs| <= j {
        assert xs[i] in xs && ys[j - |xs|] in ys;
      }
    }
  }

  // ---------------------------------------------------------------- the allocator

  ghost predicate OtherHeadsKept(before: seq<nat>, after: seq<nat>, b: nat) {
    |before| == |after| && forall c | 0 <= c < |before| && c != b :: after[c] == before[c]
  }

  /** Pages only join a bin, and those that do were unused. */
  ghost predicate GrownPages(before: seq<set<nat>>, after: seq<set<nat>>, used: set<nat>) {
    |before| == |after| && forall c, f | 0 <= c < |before| && f in after[c] :: f in before[c] || f !in used
  }

  class Bins {
    const pa: Allocator
    const mem: PhysicalMemory
    /** Whether the kernel already runs on its reconstructed mapping. */
    const reconstructed: bool
    /** list_heads. */
    var listHeads: seq<nat>

    /** Per bin: the free list, the chunks handed out, and the frames carved up. */
    ghost var free: seq<seq<nat>>
    ghost var live: seq<set<nat>>
    ghost var pages: seq<set<nat>>

    ghost predicate Sized()
      reads this
    {
      |listHeads| == BIN_SIZE_NUM && |free| == BIN_SIZE_NUM && |live| == BIN_SIZE_NUM && |pages| == BIN_SIZE_NUM
    }

    /** Every bin is in order; its pages are live one-frame blocks, and no page serves two bins. */
    ghost predicate Valid()
      reads this, mem, pa, pa.bitmap
    {
      && pa.Valid() && Sized()
      && (forall b | 0 <= b < BIN_SIZE_NUM ::
            BinOk(mem.words, reconstructed, b, listHeads[b], free[b], live[b], pages[b]))
      && (forall b, f | 0 <= b < BIN_SIZE_NUM && f in pages[b] :: Region(f, 1) in pa.live)
      && (forall b, c | 0 <= b < c < BIN_SIZE_NUM :: pages[b] !! pages[c])
    }

    /** Nothing has been allocated from the bins yet. */
    ghost predicate Unused()
      reads this
    {
      Sized() && forall b | 0 <= b < BIN_SIZE_NUM ::
        listHeads[b] == 0 && free[b] == [] && live[b] == {} && pages[b] == {}
    }

    /** Unused bins stay in order whatever happens to memory and to the pages. */
    lemma UnusedIsValid()
      requires Unused() && pa.Valid()
      ensures Valid()
    {
      hide BinOk, Allocator.Valid;
      EmptyBins(mem.words, reconstructed);
    }

    /** init_bin_allocator on the zero-initialised list heads. */
    constructor (pa: Allocator, mem: PhysicalMemory, reconstructed: bool)
      requires pa.Valid()
      ensures Valid() && this.pa == pa && this.mem == mem && this.reconstructed == reconstructed
      ensures Unused()
    {
      this.pa, this.mem, this.reconstructed := pa, mem, reconstructed;
      listHeads := [0, 0, 0, 0, 0, 0, 0];
      free, live, pages := [[], [], [], [], [], [], []], [{}, {}, {}, {}, {}, {}, {}], [{}, {}, {}, {}, {}, {}, {}];
      new;
      hide BinOk;
      EmptyBins(mem.words, reconstructed);
      assert forall b | 0 <= b < BIN_SIZE_NUM :: listHeads[b] == 0 && free[b] == [] && live[b] == {} && pages[b] == {};
    }

    /** The code of push, whatever the pointer: the head goes into its first word, and it becomes the head. */
    method Link(ptr: nat, b: nat, ghost x: nat)
      requires Sized() && b < BIN_SIZE_NUM && x < MANAGED && ptr == Phys2Virt(reconstructed, x)
      modifies this`listHeads, mem
      ensures listHeads == old(listHeads)[b := ptr]
      ensures mem.words == old(mem.words)[x / 8 := ToWord(old(listHeads[b]))]
    {
      ConversionRoundTrip(reconstructed, reconstructed, x);
      var next := if listHeads[b] != 0 then listHeads[b] else 0;
      mem.Store(Virt2Phys(reconstructed, ptr) / 8, ToWord(next));
      listHeads := listHeads[b := ptr];
    }

    /** push: link a chunk in front of a bin's list. */
    method Push(ptr: nat, b: nat, ghost xs: seq<nat>, ghost x: nat)
      requires Sized() && b < BIN_SIZE_NUM && Linked(mem.words, reconstructed, listHeads[b], xs)
      requires x !in xs && 0 < x < MANAGED && x % 8 == 0 && ptr == Phys2Virt(reconstructed, x)
      modifies this`listHeads, mem
      ensures listHeads == old(listHeads)[b := ptr]
      ensures mem.words == old(mem.words)[x / 8 := ToWord(old(listHeads[b]))]
      ensures Linked(mem.words, reconstructed, ptr, [x] + xs)
    {
      hide Linked, ToWord, Value, Phys2Virt;
      HeadIsPointer(mem.words, reconstructed, listHeads[b], xs);
      PushLinked(mem.words, reconstructed, listHeads[b], xs, x, ToWord(listHeads[b]));
      Link(ptr, b, x);
    }

    /** The code of pop on a list that is not empty: the head, and its link as the next head. */
    method Pop(b: nat) returns (ptr: nat)
      requires Sized() && b < BIN_SIZE_NUM && listHeads[b] < WORD_LIMIT
      modifies this`listHeads
      ensures ptr == old(listHeads[b])
      ensures listHeads == old(listHeads)[b := Value(At(mem.words, Virt2Phys(reconstructed, ptr) / 8))]
    {
      ptr := listHeads[b];
      listHeads := listHeads[b := Value(At(mem.words, Virt2Phys(reconstructed, ptr) / 8))];
    }

    /** One iteration of the loop of init_bin_page: push chunk i in front of the chunks after it. */
    method PushChunk(page: nat, b: nat, i: nat, ghost f: nat)
      requires Sized() && b < BIN_SIZE_NUM && i < ChunksPerPage(b)
      requires Linked(mem.words, reconstructed, listHeads[b], PageChunks(f, b, i + 1) + free[b])
      requires 1 <= f < 0x200_0000 && page == Phys2Virt(reconstructed, f * PAGE_SIZE)
      requires forall x | x in free[b] :: x / PAGE_SIZE != f
      modifies this`listHeads, mem
      ensures OtherHeadsKept(old(listHeads), listHeads, b)
      ensures OnlyFrames(old(mem.words), mem.words, {f})
      ensures Linked(mem.words, reconstructed, listHeads[b], PageChunks(f, b, i) + free[b])
    {
      hide Linked, ToWord, PageChunks, ChunkOffset, ChunksPerPage, Phys2Virt;
      ghost var x, rest := f * PAGE_SIZE + ChunkOffset(b, i), PageChunks(f, b, i + 1) + free[b];
      NextChunk(f, b, i, free[b]);
      ChunkPointer(reconstructed, f, b, i);
      Push((page + ChunkOffset(b, i)) % WORD_LIMIT, b, rest, x);
    }

    /** The loop of init_bin_page: the page's chunks, pushed from the last to the first. */
    method PushPage(page: nat, b: nat, ghost f: nat)
      requires Sized() && b < BIN_SIZE_NUM && Linked(mem.words, reconstructed, listHeads[b], free[b])
      requires 1 <= f < 0x200_0000 && page == Phys2Virt(reconstructed, f * PAGE_SIZE)
      requires forall x | x in free[b] :: x / PAGE_SIZE != f
      modifies this`listHeads, mem
      ensures OnlyFrames(old(mem.words), mem.words, {f})
      ensures OtherHeadsKept(old(listHeads), listHeads, b)
      ensures Linked(mem.words, reconstructed, listHeads[b], PageChunks(f, b, 0) + free[b])
    {
      hide Linked, PageChunks, ChunkOffset, ChunksPerPage, Phys2Virt;
      NoChunksPast(f, b, free[b]);
      var i: nat := ChunksPerPage(b);
      while i > 0
        invariant i <= ChunksPerPage(b) && |listHeads| == BIN_SIZE_NUM
        invariant OtherHeadsKept(old(listHeads), listHeads, b)
        invariant OnlyFrames(old(mem.words), mem.words, {f})
        invariant Linked(mem.words, reconstructed, listHeads[b], PageChunks(f, b, i) + free[b])
      {
        i := i - 1;
        PushChunk(page, b, i, f);
      }
    }

    /** init_bin_page: carve a fresh page into chunks of the bin, in address order. */
    method InitBinPage(b: nat) returns (ok: bool, ghost f: nat)
      requires Valid() && b < BIN_SIZE_NUM
      modifies this, mem, pa`used, pa`live, pa.bitmap
      ensures Valid() && live == old(live)
      ensures !ok <==> forall s | s >= 1 :: !FreeRun(old(pa.used), pa.frameEnd, s, 1)
      ensures !ok ==> Untouched(old(listHeads), old(free), old(pages), old(mem.words), old(pa.used), old(pa.live))
      ensures ok ==>
                && f !in old(pa.used) && 1 <= f && pa.used == old(pa.used) + {f}
                && pa.live == old(pa.live) + {Region(f, 1)}
                && OnlyFrames(old(mem.words), mem.words, {f})
                && free == old(free)[b := PageChunks(f, b, 0) + old(free[b])]
                && pages == old(pages)[b := old(pages[b]) + {f}]
    {
      hide BinOk, Linked, PageChunks, Allocator.Valid, IsChunk;
      ghost var m, heads := mem.words, listHeads;
      NotBinPages();
      assert NumFrames(PAGE_SIZE) == 1;
      var newPage;
      ghost var block;
      newPage, block := pa.Alloc(PAGE_SIZE, reconstructed);
      ok, f := newPage != 0, block.frame;
      if !ok {
        return;
      }
      assert block == Region(f, 1);
      SingleFrame(f);
      BlockInUse(pa, Region(f, 1), f);
      BinParts(m, reconstructed, b, heads[b], free[b], live[b], pages[b], f);
      PushPage(newPage, b, f);
      PageChunksAre(f, b, 0);
      FirstOffset(b);
      BinGrown(m, mem.words, reconstructed, b, heads[b], listHeads[b], free[b], PageChunks(f, b, 0), live[b],
          pages[b], f);
      forall c | 0 <= c < BIN_SIZE_NUM && c != b
        ensures BinOk(mem.words, reconstructed, c, listHeads[c], free[c], live[c], pages[c])
      {
        BinElsewhere(m, mem.words, reconstructed, c, heads[c], free[c], live[c], pages[c], {f});
      }
      free := free[b := PageChunks(f, b, 0) + free[b]];
      pages := pages[b := pages[b] + {f}];
    }

    ghost predicate Untouched(
        heads: seq<nat>, lists: seq<seq<nat>>, frames: seq<set<nat>>, m: Words, used: set<nat>, blocks: set<Region>)
      reads this, mem, pa
    {
      listHeads == heads && free == lists && pages == frames && mem.words == m && pa.used == used && pa.live == blocks
    }

    /** The list of a bin is not empty, in whatever order it is. */
    ghost predicate Listed(b: nat)
      requires b < BIN_SIZE_NUM
      reads this
    {
      Sized() && 0 < listHeads[b] < WORD_LIMIT
    }

    /** The head is handed out and its link becomes the head; nothing else changes. */
    twostate predicate HeadTaken(b: nat, ptr: nat)
      requires b < BIN_SIZE_NUM && old(Listed(b))
      reads this, mem, pa
    {
      && ptr == old(listHeads[b]) && ptr < WORD_LIMIT && mem.words == old(mem.words)
      && listHeads == old(listHeads)[b := Value(At(mem.words, Virt2Phys(reconstructed, ptr) / 8))]
      && pa.used == old(pa.used) && pa.live == old(pa.live)
    }

    /**
     * alloc_from_bin: pop, after init_bin_page when the list is empty. On a list
     * that is not empty it is pop whether or not the list is in order.
     */
    method AllocFromBin(b: nat) returns (ptr: nat, ghost x: nat)
      requires b < BIN_SIZE_NUM && (Valid() || Listed(b))
      modifies this, mem, pa`used, pa`live, pa.bitmap
      ensures Sized() && (old(Valid()) ==> Valid())
      ensures old(Listed(b)) ==> HeadTaken(b, ptr)
      ensures old(Valid()) ==>
                (ptr == 0 <==> old(free[b]) == [] && forall s | s >= 1 :: !FreeRun(old(pa.used), pa.frameEnd, s, 1))
      ensures old(Valid()) && ptr == 0 ==>
                && live == old(live)
                && Untouched(old(listHeads), old(free), old(pages), old(mem.words), old(pa.used), old(pa.live))
      ensures old(Valid()) && ptr != 0 ==> x < MANAGED && ptr == Phys2Virt(reconstructed, x) && AlignedToBin(b, x)
      ensures old(Valid()) && ptr != 0 ==>
                live == old(live)[b := old(live[b]) + {x}] && forall c | 0 <= c < BIN_SIZE_NUM :: x !in old(live[c])
      ensures old(Valid()) && ptr != 0 && old(free[b]) != [] ==>
                && x == old(free[b])[0] && free == old(free)[b := old(free[b])[1..]] && pages == old(pages)
                && mem.words == old(mem.words) && pa.used == old(pa.used) && pa.live == old(pa.live)
      ensures old(Valid()) && ptr != 0 && old(free[b]) == [] ==>
                && x / PAGE_SIZE !in old(pa.used) && x % PAGE_SIZE == 0
                && OnlyFrames(old(mem.words), mem.words, {x / PAGE_SIZE}) && GrownPages(old(pages), pages, old(pa.used))
                && pa.used == old(pa.used) + {x / PAGE_SIZE} && pa.live == old(pa.live) + {Region(x / PAGE_SIZE, 1)}
    {
      hide BinOk, Linked, PageChunks, Allocator.Valid, IsChunk, AlignedToBin, ChunksPerPage, ChunkOffset;
      ptr, x := 0, 0;
      ghost var inOrder := Valid();
      if inOrder {
        NonEmptyHead(b);
      }
      if listHeads[b] == 0 {
        ghost var f;
        var ok;
        ok, f := InitBinPage(b);
        if !ok {
          return;
        }
        FirstChunk(f, b);
        NonEmptyHead(b);
        assert f * PAGE_SIZE / PAGE_SIZE == f;
      }
      ghost var m, heads := mem.words, listHeads;
      if inOrder {
        x := free[b][0];
        FreeChunk(b, x);
        BinPopped(m, reconstructed, b, heads[b], free[b], live[b], pages[b]);
        ConversionRoundTrip(reconstructed, reconstructed, x);
      }
      ptr := Pop(b);
      if inOrder {
        free, live := free[b := free[b][1..]], live[b := live[b] + {x}];
      }
    }

    /** A bin's head is NULL exactly when its list is empty. */
    lemma NonEmptyHead(b: nat)
      requires Valid() && b < BIN_SIZE_NUM
      ensures listHeads[b] == 0 <==> free[b] == []
    {
      HeadOfList(mem.words, reconstructed, b, listHeads[b], free[b], live[b], pages[b]);
    }

    /** A free chunk is nobody's live chunk. */
    lemma FreeChunk(b: nat, x: nat)
      requires Valid() && b < BIN_SIZE_NUM && x in free[b]
      ensures AlignedToBin(b, x) && forall c | 0 <= c < BIN_SIZE_NUM :: x !in live[c]
    {
      assert IsChunk(b, pages[b], x);
      forall c | 0 <= c < BIN_SIZE_NUM
        ensures x !in live[c]
      {
        if c != b {
          assert pages[if c < b then c else b] !! pages[if c < b then b else c];
          assert IsChunk(c, pages[c], x) <==> x in free[c] || x in live[c];
        }
      }
    }

    /** bin_index: the smallest bin that holds the size, or -1. */
    method BinIndex(size: nat) returns (index: int)
      ensures index == if size <= LARGEST_BIN then BinOf(size) else -1
      ensures index == -1 ==> forall b | 0 <= b < BIN_SIZE_NUM :: size > BinSize(b)
      ensures index != -1 ==> size <= BinSize(index) && forall b | 0 <= b < index :: size > BinSize(b)
    {
      for i := 0 to BIN_SIZE_NUM
        invariant forall b | 0 <= b < i :: size > BinSize(b)
      {
        if size <= BinSize(i) {
          return i;
        }
      }
      return -1;
    }

    /**
     * bin_alloc. A small request gets a chunk that was nobody's and holds it; a
     * large one gets a block of pages. Memory that was in use is not written. A
     * small request to a list that is not in order still takes its head.
     */
    method BinAlloc(n: nat) returns (ptr: nat, ghost b: int, ghost x: nat)
      requires n < WORD_LIMIT && (Valid() || (n <= LARGEST_BIN && Listed(BinOf(n))))
      modifies this, mem, pa`used, pa`live, pa.bitmap
      ensures Sized() && (old(Valid()) ==> Valid())
      ensures b == if n <= LARGEST_BIN then BinOf(n) else -1
      ensures n <= LARGEST_BIN && old(Listed(BinOf(n))) ==> HeadTaken(BinOf(n), ptr)
      ensures old(Valid()) ==> forall k: nat | k / 512 in old(pa.used) :: At(mem.words, k) == At(old(mem.words), k)
      ensures old(Valid()) && b != -1 && ptr == 0 ==>
                old(free[b]) == [] && forall s | s >= 1 :: !FreeRun(old(pa.used), pa.frameEnd, s, 1)
      ensures old(Valid()) && b != -1 && ptr != 0 ==>
                x < MANAGED && ptr == Phys2Virt(reconstructed, x) && AlignedToBin(b, x)
      ensures old(Valid()) && b != -1 && ptr != 0 ==>
                live == old(live)[b := old(live[b]) + {x}] && forall c | 0 <= c < BIN_SIZE_NUM :: x !in old(live[c])
      ensures old(Valid()) && b != -1 && ptr != 0 && old(free[b]) != [] ==>
                && x == old(free[b])[0] && free == old(free)[b := old(free[b])[1..]] && pages == old(pages)
                && mem.words == old(mem.words) && pa.used == old(pa.used) && pa.live == old(pa.live)
      ensures old(Valid()) ==> old(pa.live) <= pa.live && GrownPages(old(pages), pages, old(pa.used))
      ensures old(Valid()) && b == -1 ==> pages == old(pages)
      ensures old(Valid()) && (b == -1 || ptr == 0) ==>
                live == old(live) && free == old(free) && mem.words == old(mem.words)
      ensures old(Valid()) && b == -1 && ptr == 0 ==>
                forall s | s >= 1 :: !FreeRun(old(pa.used), pa.frameEnd, s, NumFrames(n))
      ensures old(Valid()) && b == -1 && ptr != 0 && NumFrames(n) > 0 ==>
                && x / PAGE_SIZE < pa.frameEnd <= 0x200_0000 && x % PAGE_SIZE == 0 && ptr == Phys2Virt(reconstructed, x)
                && Region(x / PAGE_SIZE, NumFrames(n)) in pa.live - old(pa.live)
    {
      hide BinOk, Allocator.Valid, AlignedToBin, FreeRun, BinOf;
      b := BinIndex(n);
      x := 0;
      var index := BinIndex(n);
      if index >= 0 {
        ptr, x := AllocFromBin(index);
      } else {
        ghost var block;
        ptr, block := pa.Alloc(n, reconstructed);
        if ptr != 0 && NumFrames(n) > 0 {
          x := block.frame * PAGE_SIZE;
          BlockInUse(pa, block, block.frame);
        }
      }
    }

    /** What may be freed: a live chunk of the size's bin, or a live block of pages; or nothing, misaligned. */
    ghost predicate Freeable(ptr: nat, n: nat, x: nat)
      requires Sized() && ptr < WORD_LIMIT && n < WORD_LIMIT
      reads this, pa
    {
      && (n <= LARGEST_BIN ==> x in live[BinOf(n)] || !AlignedToBin(BinOf(n), x))
      && (n > LARGEST_BIN ==>
            && FreedRegion(ptr, n, reconstructed) in pa.live
            && forall b | 0 <= b < BIN_SIZE_NUM :: x / PAGE_SIZE !in pages[b])
    }

    /**
     * bin_free on any pointer into managed memory. The alignment check turns away
     * exactly the misaligned ones. Freeing what may be freed keeps everything in
     * order, writes only the chunk's own first word and makes it the next chunk
     * to be handed out. Freeing an aligned chunk that is not live writes that word
     * as well, and then no list can be in order.
     */
    method BinFree(ptr: nat, n: nat, ghost x: nat) returns (rejected: bool, panicked: bool)
      requires Valid() && n < WORD_LIMIT && x < MANAGED && ptr == Phys2Virt(reconstructed, x)
      requires n > LARGEST_BIN ==>
                 FreedRegion(ptr, n, reconstructed).frame + NumFrames(n) <= 64 * pa.bitmap.Length
      modifies this, mem, pa`used, pa`live, pa.bitmap
      ensures pages == old(pages) && (old(Freeable(ptr, n, x)) ==> Valid() && !panicked)
      ensures rejected <==> n <= LARGEST_BIN && !AlignedToBin(BinOf(n), x)
      ensures rejected ==>
                && live == old(live)
                && Untouched(old(listHeads), old(free), old(pages), old(mem.words), old(pa.used), old(pa.live))
      ensures n <= LARGEST_BIN && !rejected ==>
                && listHeads == old(listHeads)[BinOf(n) := ptr] && pa.live == old(pa.live)
                && mem.words == old(mem.words)[x / 8 := ToWord(old(listHeads[BinOf(n)]))]
      ensures n <= LARGEST_BIN && !rejected && x in old(live[BinOf(n)]) ==>
                && free == old(free)[BinOf(n) := [x] + old(free[BinOf(n)])]
                && live == old(live)[BinOf(n) := old(live[BinOf(n)]) - {x}]
      ensures n <= LARGEST_BIN && !rejected && x !in old(live[BinOf(n)]) ==>
                && free == old(free) && live == old(live)
                && (x > 0 ==> Disordered(mem.words, reconstructed, BinOf(n), ptr, live[BinOf(n)], pages[BinOf(n)]))
      ensures n > LARGEST_BIN ==>
                && free == old(free) && live == old(live) && mem.words == old(mem.words)
                && (panicked <==> exists i :: 0 <= i < |pa.reserved|
                                              && Overlap(FreedRegion(ptr, n, reconstructed), pa.reserved[i]))
                && (!panicked ==> pa.used == old(pa.used) - Frames(FreedRegion(ptr, n, reconstructed)))
                && (!panicked ==> pa.live == old(pa.live) - {FreedRegion(ptr, n, reconstructed)})
    {
      hide BinOk, Allocator.Valid, AlignedToBin, Linked, FreedRegion, Phys2Virt, ToWord, NumFrames, Disordered, BinOf;
      rejected, panicked := false, false;
      var index := BinIndex(n);
      if index >= 0 {
        PointerOffset(reconstructed, index, x);
        if !AlignedToBin(index, ptr) {
          return true, false;
        }
        FreeToBin(ptr, index, x);
      } else {
        PartsOfValid();
        ConversionRoundTrip(reconstructed, reconstructed, x);
        if Freeable(ptr, n, x) {
          FreedFrame(ptr, n, x);
          NotBinRegion(FreedRegion(ptr, n, reconstructed), x);
        }
        panicked := pa.Free(ptr, n, reconstructed);
      }
    }

    lemma PartsOfValid()
      requires Valid()
      ensures pa.Valid() && pa.Shape()
    {
    }

    lemma FreedFrame(ptr: nat, n: nat, x: nat)
      requires x < MANAGED && ptr == Phys2Virt(reconstructed, x) && n < WORD_LIMIT
      ensures FreedRegion(ptr, n, reconstructed).frame == x / PAGE_SIZE
    {
      ConversionRoundTrip(reconstructed, reconstructed, x - x % PAGE_SIZE);
      assert ptr % PAGE_SIZE == x % PAGE_SIZE;
      assert ptr - ptr % PAGE_SIZE == Phys2Virt(reconstructed, x - x % PAGE_SIZE);
      ByPage(x - x % PAGE_SIZE, x / PAGE_SIZE, 0);
    }

    /** free_to_bin: in order if the chunk is live, and in no order if it is not. */
    method FreeToBin(ptr: nat, b: nat, ghost x: nat)
      requires Valid() && b < BIN_SIZE_NUM && AlignedToBin(b, x) && x < MANAGED && ptr == Phys2Virt(reconstructed, x)
      modifies this, mem
      ensures mem.words == old(mem.words)[x / 8 := ToWord(old(listHeads[b]))] && listHeads == old(listHeads)[b := ptr]
      ensures pages == old(pages)
      ensures x in old(live[b]) ==>
                && Valid()
                && free == old(free)[b := [x] + old(free[b])] && live == old(live)[b := old(live[b]) - {x}]
      ensures x !in old(live[b]) ==>
                && free == old(free) && live == old(live)
                && (x > 0 ==> Disordered(mem.words, reconstructed, b, ptr, live[b], pages[b]))
    {
      hide BinOk, Allocator.Valid, AlignedToBin, ToWord, IsChunk, Phys2Virt, Linked;
      ghost var m, heads := mem.words, listHeads;
      Link(ptr, b, x);
      if x in live[b] {
        ChunkReturned(m, heads, free, live, b, x);
        free, live := free[b := [x] + free[b]], live[b := live[b] - {x}];
      } else if x > 0 {
        forall ys
          ensures !BinOk(mem.words, reconstructed, b, ptr, ys, live[b], pages[b])
        {
          DisorderAfterFree(m, reconstructed, b, heads[b], free[b], live[b], pages[b], x, ys);
        }
      }
    }

    /** Every bin is in order once a live chunk has been linked in. */
    lemma ChunkReturned(m: Words, heads: seq<nat>, lists: seq<seq<nat>>, chunks: seq<set<nat>>, b: nat, x: nat)
      requires Sized() && |heads| == |lists| == |chunks| == BIN_SIZE_NUM && b < BIN_SIZE_NUM
      requires forall c | 0 <= c < BIN_SIZE_NUM :: BinOk(m, reconstructed, c, heads[c], lists[c], chunks[c], pages[c])
      requires forall c, d | 0 <= c < d < BIN_SIZE_NUM :: pages[c] !! pages[d]
      requires x in chunks[b] && mem.words == m[x / 8 := ToWord(heads[b])]
      requires x < MANAGED && listHeads == heads[b := Phys2Virt(reconstructed, x)]
      ensures forall c | 0 <= c < BIN_SIZE_NUM ::
                BinOk(mem.words, reconstructed, c, listHeads[c], lists[b := [x] + lists[b]][c],
                      chunks[b := chunks[b] - {x}][c], pages[c])
    {
      hide BinOk, AlignedToBin, ToWord, IsChunk, Phys2Virt;
      LiveParts(m, reconstructed, b, heads[b], lists[b], chunks[b], pages[b], x);
      BinPushed(m, reconstructed, b, heads[b], lists[b], chunks[b], pages[b], x);
      StoredInFrame(m, x / 8, ToWord(heads[b]), x / PAGE_SIZE);
      forall c | 0 <= c < BIN_SIZE_NUM && c != b
        ensures BinOk(mem.words, reconstructed, c, listHeads[c], lists[c], chunks[c], pages[c])
      {
        assert pages[if c < b then c else b] !! pages[if c < b then b else c];
        BinElsewhere(m, mem.words, reconstructed, c, heads[c], lists[c], chunks[c], pages[c], {x / PAGE_SIZE});
      }
    }

    lemma NotBinRegion(r: Region, x: nat)
      requires Valid() && r in pa.live && r.frame == x / PAGE_SIZE
      requires forall b | 0 <= b < BIN_SIZE_NUM :: x / PAGE_SIZE !in pages[b]
      ensures forall b, f | 0 <= b < BIN_SIZE_NUM && f in pages[b] :: Region(f, 1) in pa.live - {r}
    {
    }

    /** Free and live chunks, of one bin or of two, do not share a byte. */
    lemma ChunksDisjoint(b: nat, x: nat, c: nat, y: nat)
      requires Valid() && b < BIN_SIZE_NUM && c < BIN_SIZE_NUM && (b != c || x != y)
      requires (x in free[b] || x in live[b]) && (y in free[c] || y in live[c])
      ensures x + BinSize(b) <= y || y + BinSize(c) <= x
    {
      hide Allocator.Valid, Linked, NoDuplicates, AlignedToBin, BinSize;
      assert IsChunk(b, pages[b], x) && IsChunk(c, pages[c], y);
      ChunkInPage(b, x);
      ChunkInPage(c, y);
      if b == c {
        ChunksApart(b, if x < y then x else y, if x < y then y else x);
      } else {
        assert pages[if b < c then b else c] !! pages[if b < c then c else b];
      }
    }

    /** bin_free then bin_alloc of the same size returns the same chunk; only its first word was written. */
    method FreeThenAlloc(ptr: nat, n: nat, ghost x: nat) returns (again: nat)
      requires Valid() && x < MANAGED && ptr == Phys2Virt(reconstructed, x) && x > 0
      requires n <= LARGEST_BIN && x in live[BinOf(n)]
      modifies this, mem, pa`used, pa`live, pa.bitmap
      ensures Valid() && again == ptr && live == old(live) && free == old(free)
      ensures forall k: nat | k != x / 8 :: At(mem.words, k) == At(old(mem.words), k)
    {
      hide BinOk, Allocator.Valid, Linked, FreeRun, GrownPages, AlignedToBin, ToWord, Untouched, NumFrames;
      var index := BinIndex(n);
      ChunkOfBin(index, x);
      ghost var lists, chunks := free, live;
      var rejected, panicked := BinFree(ptr, n, x);
      ghost var freed, others := free, live;
      assert freed[index][0] == x;
      ghost var b, y;
      again, b, y := BinAlloc(n);
      assert y == x;
      assert freed == lists[index := [x] + lists[index]] && freed[index][1..] == lists[index];
      Restored(lists, freed, free, index);
      assert others[index] + {x} == chunks[index];
      Restored(chunks, others, live, index);
    }

    /**
     * A chunk freed twice is handed out twice: after the second bin_free the
     * chunk is its own successor, and bin_alloc returns it again and again.
     */
    method DoubleFree(ptr: nat, n: nat, ghost x: nat) returns (first: nat, second: nat)
      requires Valid() && x < MANAGED && ptr == Phys2Virt(reconstructed, x) && x > 0
      requires n <= LARGEST_BIN && x in live[BinOf(n)]
      modifies this, mem, pa`used, pa`live, pa.bitmap
      ensures first == second == ptr
    {
      hide BinOk, Allocator.Valid, Linked, Phys2Virt, ToWord, Value, AlignedToBin, FreedRegion, Untouched, NumFrames;
      var index := BinIndex(n);
      ChunkOfBin(index, x);
      assert index >= 0;
      var rejected, panicked := BinFree(ptr, n, x);
      rejected, panicked := BinFree(ptr, n, x);
      OwnSuccessor(mem.words, reconstructed, ptr, x);
      ghost var b, y;
      first, b, y := BinAlloc(n);
      second, b, y := BinAlloc(n);
    }

    lemma ChunkOfBin(b: nat, x: nat)
      requires Valid() && b < BIN_SIZE_NUM && x in live[b]
      ensures AlignedToBin(b, x)
    {
      assert IsChunk(b, pages[b], x);
    }

    lemma NotBinPages()
      requires Valid()
      ensures forall b, f: nat | 0 <= b < BIN_SIZE_NUM && f !in pa.used :: f !in pages[b]
    {
      forall b, f: nat | 0 <= b < BIN_SIZE_NUM && f !in pa.used
        ensures f !in pages[b]
      {
        NotABinPage(f);
      }
    }

    /** A frame that is not used belongs to no bin. */
    lemma NotABinPage(f: nat)
      requires Valid() && f !in pa.used
      ensures forall b | 0 <= b < BIN_SIZE_NUM :: f !in pages[b]
    {
      forall b | 0 <= b < BIN_SIZE_NUM
        ensures f !in pages[b]
      {
        if f in pages[b] {
          BlockInUse(pa, Region(f, 1), f);
        }
      }
    }
  }

  lemma BlockInUse(pa: Allocator, r: Region, f: nat)
    requires pa.Valid() && r in pa.live && Within(r, f)
    ensures f in pa.used && 1 <= f < pa.frameEnd <= 0x200_0000
  {
    assert InBlock(pa.live, f);
  }

  lemma BinParts(
      m: Words, reconstructed: bool, b: nat, head: nat, xs: seq<nat>, live: set<nat>, pages: set<nat>, f: nat)
    requires BinOk(m, reconstructed, b, head, xs, live, pages) && f !in pages
    ensures Linked(m, reconstructed, head, xs) && forall x | x in xs :: x / PAGE_SIZE != f
  {
    forall x | x in xs
      ensures x / PAGE_SIZE != f
    {
      assert IsChunk(b, pages, x);
    }
  }

  lemma HeadOfList(
      m: Words, reconstructed: bool, b: nat, head: nat, xs: seq<nat>, live: set<nat>, pages: set<nat>)
    requires BinOk(m, reconstructed, b, head, xs, live, pages)
    ensures head == 0 <==> xs == []
  {
    if xs != [] {
      assert IsChunk(b, pages, xs[0]) by {
        assert xs[0] in xs;
      }
      ConversionRoundTrip(reconstructed, reconstructed, xs[0]);
    }
  }

  lemma FirstChunk(f: nat, b: nat)
    requires b < BIN_SIZE_NUM
    ensures PageChunks(f, b, 0) != [] && PageChunks(f, b, 0)[0] == f * PAGE_SIZE
  {
    assert ChunkOffset(b, 0) == 0 && ChunksPerPage(b) > 0;
  }

  /** The direct map's base is page-aligned, so the pointer's page offset is the address's. */
  lemma PointerOffset(reconstructed: bool, b: nat, x: nat)
    requires x < MANAGED
    ensures AlignedToBin(b, Phys2Virt(reconstructed, x)) <==> AlignedToBin(b, x)
  {
    assert Phys2Virt(reconstructed, x) % PAGE_SIZE == x % PAGE_SIZE;
  }

  lemma FreeInBounds(pa: Allocator, r: Region)
    requires pa.Valid() && r in pa.live
    ensures pa.Shape() && r.frame + r.numFrames <= 64 * pa.bitmap.Length
  {
  }

  lemma LiveParts(
      m: Words, reconstructed: bool, b: nat, head: nat, xs: seq<nat>, live: set<nat>, pages: set<nat>, x: nat)
    requires BinOk(m, reconstructed, b, head, xs, live, pages) && b < BIN_SIZE_NUM && x in live
    ensures Linked(m, reconstructed, head, xs) && x !in xs && x / PAGE_SIZE in pages
    ensures 0 < x < MANAGED && x % 0x20 == 0 && x % 8 == 0
  {
    hide AlignedToBin, Linked, NoDuplicates;
    assert IsChunk(b, pages, x);
    ChunkInPage(b, x);
    ChunkAddress(x);
  }

  lemma ChunkAddress(x: nat)
    requires x % 0x20 == 0 && 1 <= x / PAGE_SIZE < 0x200_0000
    ensures 0 < x < MANAGED && x % 8 == 0
  {
  }

  lemma StoredInFrame(m: Words, k: nat, w: Word, f: nat)
    requires f == k / 512
    ensures OnlyFrames(m, m[k := w], {f})
  {
  }

  lemma Restored<T>(before: seq<T>, between: seq<T>, after: seq<T>, b: nat)
    requires b < |before| && |between| == |before|
    requires between == before[b := between[b]] && after == between[b := before[b]]
    ensures after == before
  {
  }

  lemma OwnSuccessor(m: Words, reconstructed: bool, ptr: nat, x: nat)
    requires x < MANAGED && ptr == Phys2Virt(reconstructed, x) && At(m, x / 8) == ToWord(ptr)
    ensures ptr < WORD_LIMIT && Value(At(m, Virt2Phys(reconstructed, ptr) / 8)) == ptr
    ensures x > 0 ==> ptr != 0
  {
    ConversionRoundTrip(reconstructed, reconstructed, x);
    WordRoundTrip(ptr);
  }

  lemma FirstOffset(b: nat)
    ensures ChunkOffset(b, 0) == 0
  {
  }

  lemma NoChunksPast(f: nat, b: nat, xs: seq<nat>)
    ensures PageChunks(f, b, ChunksPerPage(b)) + xs == xs
  {
  }

  lemma NextChunk(f: nat, b: nat, i: nat, xs: seq<nat>)
    requires b < BIN_SIZE_NUM && i < ChunksPerPage(b) && 1 <= f < 0x200_0000
    requires forall x | x in xs :: x / PAGE_SIZE != f
    ensures var x := f * PAGE_SIZE + ChunkOffset(b, i);
            && 0 < x < MANAGED && x % 8 == 0 && x !in PageChunks(f, b, i + 1) + xs && x / 8 / 512 == f
    ensures PageChunks(f, b, i) + xs == [f * PAGE_SIZE + ChunkOffset(b, i)] + (PageChunks(f, b, i + 1) + xs)
  {
    assert PageChunks(f, b, i) + xs == [f * PAGE_SIZE + ChunkOffset(b, i)] + (PageChunks(f, b, i + 1) + xs);
    PageChunksAre(f, b, i + 1);
    OffsetFacts(b, f, i);
    OffsetEnds(b, i);
    OffsetsAscend(b, i);
    hide ChunkOffset, AlignedToBin, BinSize, ChunksPerPage;
    ChunkPlace(f, ChunkOffset(b, i));
  }

  lemma OffsetsAscend(b: nat, i: nat)
    ensures ChunkOffset(b, i) < ChunkOffset(b, i + 1)
  {
  }

  lemma EmptyBins(m: Words, reconstructed: bool)
    ensures forall b: nat :: BinOk(m, reconstructed, b, 0, [], {}, {})
  {
  }

  lemma ChunkPlace(f: nat, o: nat)
    requires 1 <= f < 0x200_0000 && o < PAGE_SIZE && o % 0x20 == 0
    ensures var x := f * PAGE_SIZE + o; 0 < x < MANAGED && x % 8 == 0 && x / 8 / 512 == f
  {
    var x := f * PAGE_SIZE + o;
    InPageBy32(f, o);
    assert o / 8 < 512;
    ByFrame(x / 8, f, o / 8);
  }

  lemma ChunkPointer(reconstructed: bool, f: nat, b: nat, i: nat)
    requires b < BIN_SIZE_NUM && i < ChunksPerPage(b) && f < 0x200_0000
    ensures (Phys2Virt(reconstructed, f * PAGE_SIZE) + ChunkOffset(b, i)) % WORD_LIMIT
            == Phys2Virt(reconstructed, f * PAGE_SIZE + ChunkOffset(b, i))
  {
    OffsetEnds(b, i);
  }
}
